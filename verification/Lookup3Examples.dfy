/** The values that the original lists for its self-test.  They fix the seeds, the rotations and the order of bytes
    and words; on the way the exclusive or of numbers is found to be that of 32-bit words. */
module Lookup3Examples {
  import Maps = BinMaps
  import opened Lookup3

  /** Words as numbers differ in the bits that their exclusive or has. */
  lemma {:induction false} XorBits(x: bv32, y: bv32, n: nat)
    requires Maps.Value(x) < Power(n) && Maps.Value(y) < Power(n)
    ensures Bits(Maps.Value(x), Maps.Value(y), n, Differ) == Maps.Value(XorWord(x, y))
    decreases n
  {
    hide Maps.Value, Maps.Halved, Maps.OddWord, XorWord;
    if n == 0 {
      ZeroWords(x, y);
    } else {
      hide Bits, Power;
      Maps.Split(x);
      Maps.Split(y);
      Maps.Split(XorWord(x, y));
      XorHalves(x, y);
      BitsStep(Maps.Value(Maps.Halved(x)), Maps.Value(Maps.Halved(y)), Maps.OddWord(x), Maps.OddWord(y), n);
      XorBits(Maps.Halved(x), Maps.Halved(y), n - 1);
    }
  }

  lemma BitsStep(x: nat, y: nat, p: bool, q: bool, n: nat)
    requires n > 0
    ensures var one, two := 2 * x + (if p then 1 else 0), 2 * y + (if q then 1 else 0);
      && Bits(one, two, n, Differ) == 2 * Bits(x, y, n - 1, Differ) + (if p != q then 1 else 0)
      && Power(n) == 2 * Power(n - 1)
  {}

  function XorWord(x: bv32, y: bv32): bv32 { x ^ y }

  lemma ZeroWords(x: bv32, y: bv32)
    requires Maps.Value(x) < 1 && Maps.Value(y) < 1
    ensures Maps.Value(XorWord(x, y)) == 0
  {
    assert x == 0 && y == 0;
  }

  lemma XorHalves(x: bv32, y: bv32)
    ensures Maps.Halved(XorWord(x, y)) == XorWord(Maps.Halved(x), Maps.Halved(y))
    ensures Maps.OddWord(XorWord(x, y)) <==> Maps.OddWord(x) != Maps.OddWord(y)
  {
    XorOdd(x, y);
    LastBit(x);
    LastBit(y);
  }

  lemma XorOdd(x: bv32, y: bv32)
    ensures (x ^ y) & 1 == (x & 1) ^ (y & 1)
  {}

  lemma LastBit(x: bv32)
    ensures x & 1 == 0 || x & 1 == 1
  {}

  function Number(x: bv32): (n: Word)
    ensures n == Maps.Value(x)
  {
    Maps.SameWord(x);
    Maps.Value(x)
  }

  lemma XorIs(x: bv32, y: bv32)
    ensures Xor(Number(x), Number(y)) == Number(x ^ y)
  {
    hide Maps.Value, Power;
    var m, n := Number(x), Number(y);
    PowersOfTwo();
    XorBits(x, y, 32);
  }

  lemma RotIs(x: Word, k: nat, p: nat, q: nat)
    requires 0 < k < 32 && Power(k) == p && Power(32 - k) == q && q > 0
    ensures x / q <= x && Rot(x, k) == (x * p % RANGE + x / q) % RANGE
  {
    Quotient(x, q);
  }

  /** A line of `mix`: `d` is the difference, `r` the rotated word, and `x` what they make. */
  lemma StirIs(a: Word, b: Word, c: Word, k: nat, p: nat, q: nat, d: bv32, r: bv32, x: bv32, c': Word)
    requires 0 < k < 32 && Power(k) == p && Power(32 - k) == q && q > 0 && x == d ^ r
    requires Number(d) == (a - c) % RANGE && Number(r) == (c * p % RANGE + c / q) % RANGE && c' == (c + b) % RANGE
    ensures Turn(Stir(Words(a, b, c), k)) == Words(b, c', Number(x))
  {
    hide Maps.Value, Number, Power, Rot, Xor;
    RotIs(c, k, p, q);
    XorIs(d, r);
  }

  /** A line of `final`: `x` and `y` are the words that are combined to `z`, and `r` is the rotated word. */
  lemma FoldIs(a: Word, b: Word, c: Word, k: nat, p: nat, q: nat, x: bv32, y: bv32, z: bv32, n: Word, r: Word, c': Word)
    requires 0 < k < 32 && Power(k) == p && Power(32 - k) == q && q > 0 && z == y ^ x
    requires b == Number(x) && c == Number(y) && n == Number(z)
    requires r == (b * p % RANGE + b / q) % RANGE && c' == (n - r) % RANGE
    ensures Fold(Words(a, b, c), k) == Words(a, b, c') && Turn(Fold(Words(a, b, c), k)) == Words(b, c', a)
  {
    hide Maps.Value, Number, Power, Rot, Xor;
    RotIs(b, k, p, q);
    XorIs(y, x);
  }

  lemma Powers()
    ensures Power(4) == 0x10 && Power(6) == 0x40 && Power(7) == 0x80 && Power(8) == 0x100 && Power(11) == 0x800
    ensures Power(13) == 0x2000 && Power(14) == 0x4000 && Power(16) == 0x1_0000 && Power(18) == 0x4_0000
    ensures Power(19) == 0x8_0000 && Power(21) == 0x20_0000 && Power(24) == 0x100_0000 && Power(25) == 0x200_0000
    ensures Power(26) == 0x400_0000 && Power(28) == 0x1000_0000
  {}

  /** "Four score and seven years ago" */
  const KEY: seq<Byte> :=
    [0x46, 0x6f, 0x75, 0x72, 0x20, 0x73, 0x63, 0x6f, 0x72, 0x65, 0x20, 0x61] +
    [0x6e, 0x64, 0x20, 0x73, 0x65, 0x76, 0x65, 0x6e, 0x20, 0x79, 0x65, 0x61] +
    [0x72, 0x73, 0x20, 0x61, 0x67, 0x6f]

  lemma FirstBlockNumbers()
    ensures Number(0x115509d4) == 0x115509d4 && Number(0xfce247f3) == 0xfce247f3 && Number(0xedb74e27) == 0xedb74e27
    ensures Number(0x6059e406) == 0x6059e406 && Number(0x6dd389fb) == 0x6dd389fb && Number(0x0d8a6dfd) == 0x0d8a6dfd
    ensures Number(0x8054e8af) == 0x8054e8af && Number(0x8a6dfd0d) == 0x8a6dfd0d && Number(0x0a3915a2) == 0x0a3915a2
    ensures Number(0x715d8f31) == 0x715d8f31 && Number(0x15a20a39) == 0x15a20a39 && Number(0x64ff8508) == 0x64ff8508
    ensures Number(0x24218dc8) == 0x24218dc8 && Number(0x284327fc) == 0x284327fc && Number(0x0c62aa34) == 0x0c62aa34
    ensures Number(0x86f77e3e) == 0x86f77e3e && Number(0xc62aa340) == 0xc62aa340 && Number(0x40dddd7e) == 0x40dddd7e
  {}

  lemma FirstBlockMixed()
    ensures Mix(Words(0x51232e53, 0x4e11322d, 0x3fce247f)) == Words(0xf859ad7a, 0x04bc57ae, 0x40dddd7e)
  {
    Powers();
    FirstBlockNumbers();
    hide Power, Number, Turn, Stir;
    StirIs(0x51232e53, 0x4e11322d, 0x3fce247f, 4, 0x10, 0x10000000, 0x115509d4, 0xfce247f3, 0xedb74e27, 0x8ddf56ac);
    StirIs(0x4e11322d, 0x8ddf56ac, 0xedb74e27, 6, 0x40, 0x4000000, 0x6059e406, 0x6dd389fb, 0x0d8a6dfd, 0x7b96a4d3);
    StirIs(0x8ddf56ac, 0x7b96a4d3, 0x0d8a6dfd, 8, 0x100, 0x1000000, 0x8054e8af, 0x8a6dfd0d, 0x0a3915a2, 0x892112d0);
    StirIs(0x7b96a4d3, 0x892112d0, 0x0a3915a2, 16, 0x10000, 0x10000, 0x715d8f31, 0x15a20a39, 0x64ff8508, 0x935a2872);
    StirIs(0x892112d0, 0x935a2872, 0x64ff8508, 19, 0x80000, 0x2000, 0x24218dc8, 0x284327fc, 0x0c62aa34, 0xf859ad7a);
    StirIs(0x935a2872, 0xf859ad7a, 0x0c62aa34, 4, 0x10, 0x10000000, 0x86f77e3e, 0xc62aa340, 0x40dddd7e, 0x04bc57ae);
  }

  lemma SecondBlockNumbers()
    ensures Number(0xc936bb4a) == 0xc936bb4a && Number(0x243569ea) == 0x243569ea && Number(0xed03d2a0) == 0xed03d2a0
    ensures Number(0x861dfb73) == 0x861dfb73 && Number(0x40f4a83b) == 0x40f4a83b && Number(0xc6e95348) == 0xc6e95348
    ensures Number(0x4e7bd169) == 0x4e7bd169 && Number(0xe95348c6) == 0xe95348c6 && Number(0xa72899af) == 0xa72899af
    ensures Number(0x5b405da2) == 0x5b405da2 && Number(0x99afa728) == 0x99afa728 && Number(0xc2effa8a) == 0xc2effa8a
    ensures Number(0x0662500f) == 0x0662500f && Number(0xd456177f) == 0xd456177f && Number(0xd2344770) == 0xd2344770
    ensures Number(0x9e469cd8) == 0x9e469cd8 && Number(0x2344770d) == 0x2344770d && Number(0xbd02ebd5) == 0xbd02ebd5
  {}

  lemma SecondBlockMixed()
    ensures Mix(Words(0x6b7a11e8, 0x7321ce13, 0xa243569e)) == Words(0x336aded2, 0x059f2642, 0xbd02ebd5)
  {
    Powers();
    SecondBlockNumbers();
    hide Power, Number, Turn, Stir;
    StirIs(0x6b7a11e8, 0x7321ce13, 0xa243569e, 4, 0x10, 0x10000000, 0xc936bb4a, 0x243569ea, 0xed03d2a0, 0x156524b1);
    StirIs(0x7321ce13, 0x156524b1, 0xed03d2a0, 6, 0x40, 0x4000000, 0x861dfb73, 0x40f4a83b, 0xc6e95348, 0x0268f751);
    StirIs(0x156524b1, 0x0268f751, 0xc6e95348, 8, 0x100, 0x1000000, 0x4e7bd169, 0xe95348c6, 0xa72899af, 0xc9524a99);
    StirIs(0x0268f751, 0xc9524a99, 0xa72899af, 16, 0x10000, 0x10000, 0x5b405da2, 0x99afa728, 0xc2effa8a, 0x707ae448);
    StirIs(0xc9524a99, 0x707ae448, 0xc2effa8a, 19, 0x80000, 0x2000, 0x0662500f, 0xd456177f, 0xd2344770, 0x336aded2);
    StirIs(0x707ae448, 0x336aded2, 0xd2344770, 4, 0x10, 0x10000000, 0x9e469cd8, 0x2344770d, 0xbd02ebd5, 0x059f2642);
  }

  lemma LastBlockNumbers()
    ensures Number(0x059f95a9) == 0x059f95a9 && Number(0xbd02ebd5) == 0xbd02ebd5 && Number(0xb89d7e7c) == 0xb89d7e7c
    ensures Number(0xd3333d15) == 0xd3333d15 && Number(0x948b5244) == 0x948b5244 && Number(0x47b86f51) == 0x47b86f51
    ensures Number(0xadcfc0b8) == 0xadcfc0b8 && Number(0xa8505511) == 0xa8505511 && Number(0x36f4b590) == 0x36f4b590
    ensures Number(0xe5c78885) == 0xe5c78885 && Number(0x30375191) == 0x30375191 && Number(0x9df89129) == 0x9df89129
    ensures Number(0x9a837816) == 0x9a837816 && Number(0xac77cd86) == 0xac77cd86 && Number(0xce7226e6) == 0xce7226e6
    ensures Number(0xfe457777) == 0xfe457777
  {}

  lemma LastBlockMixed()
    ensures Final(Words(0x948b5244, 0x059f95a9, 0xbd02ebd5)) == Words(0x9a837816, 0xce7226e6, 0x17770551)
  {
    Powers();
    LastBlockNumbers();
    hide Power, Number, Turn, Fold;
    assert Turn(Fold(Words(0x948b5244, 0x059f95a9, 0xbd02ebd5), 14)) == Words(0x059f95a9, 0xd3333d15, 0x948b5244) by {
      FoldIs(0x948b5244, 0x059f95a9, 0xbd02ebd5, 14, 0x4000, 0x40000, 0x059f95a9, 0xbd02ebd5,
             0xb89d7e7c, 0xb89d7e7c, 0xe56a4167, 0xd3333d15);
    }
    assert Turn(Fold(Words(0x059f95a9, 0xd3333d15, 0x948b5244), 11)) == Words(0xd3333d15, 0xadcfc0b8, 0x059f95a9) by {
      FoldIs(0x059f95a9, 0xd3333d15, 0x948b5244, 11, 0x800, 0x200000, 0xd3333d15, 0x948b5244,
             0x47b86f51, 0x47b86f51, 0x99e8ae99, 0xadcfc0b8);
    }
    assert Turn(Fold(Words(0xd3333d15, 0xadcfc0b8, 0x059f95a9), 25)) == Words(0xadcfc0b8, 0x36f4b590, 0xd3333d15) by {
      FoldIs(0xd3333d15, 0xadcfc0b8, 0x059f95a9, 25, 0x2000000, 0x80, 0xadcfc0b8, 0x059f95a9,
             0xa8505511, 0xa8505511, 0x715b9f81, 0x36f4b590);
    }
    assert Turn(Fold(Words(0xadcfc0b8, 0x36f4b590, 0xd3333d15), 16)) == Words(0x36f4b590, 0x30375191, 0xadcfc0b8) by {
      FoldIs(0xadcfc0b8, 0x36f4b590, 0xd3333d15, 16, 0x10000, 0x10000, 0x36f4b590, 0xd3333d15,
             0xe5c78885, 0xe5c78885, 0xb59036f4, 0x30375191);
    }
    assert Turn(Fold(Words(0x36f4b590, 0x30375191, 0xadcfc0b8), 4)) == Words(0x30375191, 0x9a837816, 0x36f4b590) by {
      FoldIs(0x36f4b590, 0x30375191, 0xadcfc0b8, 4, 0x10, 0x10000000, 0x30375191, 0xadcfc0b8,
             0x9df89129, 0x9df89129, 0x03751913, 0x9a837816);
    }
    assert Turn(Fold(Words(0x30375191, 0x9a837816, 0x36f4b590), 14)) == Words(0x9a837816, 0xce7226e6, 0x30375191) by {
      FoldIs(0x30375191, 0x9a837816, 0x36f4b590, 14, 0x4000, 0x40000, 0x9a837816, 0x36f4b590,
             0xac77cd86, 0xac77cd86, 0xde05a6a0, 0xce7226e6);
    }
    assert Fold(Words(0x9a837816, 0xce7226e6, 0x30375191), 24) == Words(0x9a837816, 0xce7226e6, 0x17770551) by {
      FoldIs(0x9a837816, 0xce7226e6, 0x30375191, 24, 0x1000000, 0x100, 0xce7226e6, 0x30375191,
             0xfe457777, 0xfe457777, 0xe6ce7226, 0x17770551);
    }
  }

  lemma KeyWords()
    ensures |KEY| == 30 && var k1, k2 := KEY[..12], KEY[12..][..12]; var k3 := KEY[12..][12..];
      && WordAt(k1, 0) == 0x72756f46 && WordAt(k1, 4) == 0x6f637320 && WordAt(k1, 8) == 0x61206572
      && WordAt(k2, 0) == 0x7320646e && WordAt(k2, 4) == 0x6e657665 && WordAt(k2, 8) == 0x61657920
      && WordAt(k3, 0) == 0x61207372 && WordAt(k3, 4) == 0x00006f67 && WordAt(k3, 8) == 0x00000000
  {}

  lemma Absorbed(s: Words, k: seq<Byte>)
    requires k != []
    ensures Absorb(s, k) == if |k| > 12 then Absorb(Mix(Block(s, k[..12])), k[12..]) else Final(Block(s, k))
  {}

  /** The value listed for that key */
  lemma ExampleHash()
    ensures Hashes(KEY, 0, 0) == (0x17770551, 0xce7226e6)
  {
    hide Mix, Final, WordAt, Absorb;
    KeyWords();
    FirstBlockMixed();
    SecondBlockMixed();
    LastBlockMixed();
    Absorbed(Seeded(30, 0, 0), KEY);
    Absorbed(Words(0xf859ad7a, 0x04bc57ae, 0x40dddd7e), KEY[12..]);
    Absorbed(Words(0x336aded2, 0x059f2642, 0xbd02ebd5), KEY[12..][12..]);
  }

  /** Those for the empty key, with both seeds */
  lemma EmptyKey()
    ensures Hashes([], 0, 0) == (0xdeadbeef, 0xdeadbeef)
    ensures Hashes([], 0, 0xdeadbeef) == (0xbd5b7dde, 0xdeadbeef)
    ensures Hashes([], 0xdeadbeef, 0xdeadbeef) == (0x9c093ccd, 0xbd5b7dde)
  {}
}
