/** The hash functions for keys of words and of bytes.  The functions of bytes read the key as 32-bit words, as
    16-bit halves or byte by byte, by the alignment of its address; all are one function of the key. */
module Lookup3 {
  const RANGE := 0x1_0000_0000
  const SEED := 0xdeadbeef

  /** Unsigned 32-bit words: arithmetic is modulo 2^32, and `&` and `^` go bit by bit. */
  type Word = x: int | 0 <= x < RANGE

  type Byte = x: int | 0 <= x < 256

  function Add(x: Word, y: Word): Word { (x + y) % RANGE }

  function Sub(x: Word, y: Word): Word { (x - y) % RANGE }

  function Power(n: nat): (p: nat)
    ensures p > 0
  {
    if n == 0 then 1 else 2 * Power(n - 1)
  }

  function Bits(x: nat, y: nat, n: nat, one: (bool, bool) -> bool): (r: nat)
    ensures r < Power(n)
  {
    if n == 0 then 0 else (if one(x % 2 == 1, y % 2 == 1) then 1 else 0) + 2 * Bits(x / 2, y / 2, n - 1, one)
  }

  function Differ(p: bool, q: bool): bool { p != q }

  function Both(p: bool, q: bool): bool { p && q }

  function Xor(x: Word, y: Word): Word {
    PowersOfTwo();
    Bits(x, y, 32, Differ)
  }

  function And(x: Word, y: Word): Word {
    PowersOfTwo();
    Bits(x, y, 32, Both)
  }

  function Shl(x: Word, k: nat): Word { x * Power(k) % RANGE }

  /** `rot`, whose two shifted parts have no bit in common */
  function Rot(x: Word, k: nat): Word
    requires 0 < k < 32
  {
    Quotient(x, Power(32 - k));
    Add(Shl(x, k), x / Power(32 - k))
  }

  lemma PowersOfTwo()
    ensures Power(8) == 0x100 && Power(16) == 0x1_0000 && Power(24) == 0x100_0000 && Power(32) == RANGE
  {
    assert Power(4) == 16;
    assert Power(8) == 256;
    assert Power(12) == 16 * 256;
    assert Power(16) == 256 * 256;
    assert Power(20) == 16 * 256 * 256;
    assert Power(24) == 256 * 256 * 256;
    assert Power(28) == 16 * 256 * 256 * 256;
  }

  lemma Quotient(x: nat, d: nat)
    requires d > 0
    ensures 0 <= x / d <= x
  {
    var q := x / d;
    assert x == d * q + x % d;
    Product(d - 1, q);
  }

  /** The three words of internal state */
  datatype Words = Words(a: Word, b: Word, c: Word)

  /** One line of `mix`: `a -= c; a ^= rot(c, k); c += b;` */
  function Stir(s: Words, k: nat): Words
    requires 0 < k < 32
  {
    Words(Xor(Sub(s.a, s.c), Rot(s.c, k)), s.b, Add(s.c, s.b))
  }

  function Unstir(s: Words, k: nat): Words
    requires 0 < k < 32
  {
    var c := Sub(s.c, s.b);
    Words(Add(Xor(s.a, Rot(c, k)), c), s.b, c)
  }

  function Turn(s: Words): Words { Words(s.b, s.c, s.a) }

  function Unturn(s: Words): Words { Words(s.c, s.a, s.b) }

  /** `mix`: six lines, whose roles of the words rotate */
  function Mix(s: Words): Words {
    Turn(Stir(Turn(Stir(Turn(Stir(Turn(Stir(Turn(Stir(Turn(Stir(s, 4)), 6)), 8)), 16)), 19)), 4))
  }

  function Unmix(s: Words): Words {
    Unstir(Unturn(Unstir(Unturn(Unstir(Unturn(Unstir(Unturn(Unstir(Unturn(Unstir(Unturn(s), 4)), 19)), 16)), 8)), 6)), 4)
  }

  lemma {:induction false} DifferTwice(x: nat, y: nat, n: nat)
    requires x < Power(n)
    ensures Bits(Bits(x, y, n, Differ), y, n, Differ) == x
  {
    if n > 0 {
      DifferTwice(x / 2, y / 2, n - 1);
    }
  }

  lemma XorTwice(x: Word, y: Word)
    ensures Xor(Xor(x, y), y) == x
  {
    hide Bits, Power;
    PowersOfTwo();
    DifferTwice(x, y, 32);
  }

  lemma Wraps(x: Word, y: Word)
    ensures Add(x, y) == (if x + y < RANGE then x + y else x + y - RANGE)
    ensures Sub(x, y) == (if x >= y then x - y else x - y + RANGE)
  {}

  lemma Undone(x: Word, y: Word)
    ensures Add(Sub(x, y), y) == x && Sub(Add(x, y), y) == x && Xor(Xor(x, y), y) == x
  {
    hide Add, Sub, Xor;
    XorTwice(x, y);
    Wraps(x, y);
    Wraps(Sub(x, y), y);
    Wraps(Add(x, y), y);
  }

  lemma AddMoves(x: Word, y: Word, z: Word)
    ensures Add(Add(x, y), z) == Add(x, Add(y, z)) && Add(y, z) == Add(z, y) && Add(x, 0) == x
  {
    hide Add;
    Wraps(x, y);
    Wraps(y, z);
    Wraps(z, y);
    Wraps(x, 0);
    Wraps(Add(x, y), z);
    Wraps(x, Add(y, z));
  }

  lemma StirUndone(s: Words, k: nat)
    requires 0 < k < 32
    ensures Unstir(Stir(s, k), k) == s && Stir(Unstir(s, k), k) == s
  {
    hide Add, Sub, Xor, Rot;
    Undone(s.c, s.b);
    Undone(s.a, s.c);
    Undone(Sub(s.a, s.c), Rot(s.c, k));
    var c := Sub(s.c, s.b);
    Undone(s.a, Rot(c, k));
    Undone(Xor(s.a, Rot(c, k)), c);
  }

  /** `mix` is reversible: no information in the state is lost. */
  lemma MixIsBijective(s: Words)
    ensures Unmix(Mix(s)) == s && Mix(Unmix(s)) == s
  {
    hide Stir, Unstir;
    var s1 := Turn(Stir(s, 4));
    var s2 := Turn(Stir(s1, 6));
    var s3 := Turn(Stir(s2, 8));
    var s4 := Turn(Stir(s3, 16));
    var s5 := Turn(Stir(s4, 19));
    StirUndone(s, 4); StirUndone(s1, 6); StirUndone(s2, 8);
    StirUndone(s3, 16); StirUndone(s4, 19); StirUndone(s5, 4);
    var t1 := Unstir(Unturn(s), 4);
    var t2 := Unstir(Unturn(t1), 19);
    var t3 := Unstir(Unturn(t2), 16);
    var t4 := Unstir(Unturn(t3), 8);
    var t5 := Unstir(Unturn(t4), 6);
    StirUndone(Unturn(s), 4); StirUndone(Unturn(t1), 19); StirUndone(Unturn(t2), 16);
    StirUndone(Unturn(t3), 8); StirUndone(Unturn(t4), 6); StirUndone(Unturn(t5), 4);
  }

  /** One line of `final`: `c ^= b; c -= rot(b, k);` */
  function Fold(s: Words, k: nat): Words
    requires 0 < k < 32
  {
    s.(c := Sub(Xor(s.c, s.b), Rot(s.b, k)))
  }

  /** `final` */
  function Final(s: Words): Words {
    Fold(Turn(Fold(Turn(Fold(Turn(Fold(Turn(Fold(Turn(Fold(Turn(Fold(s, 14)), 11)), 25)), 16)), 4)), 14)), 24)
  }

  /** A little-endian word of four bytes, and one of two */
  function Join(b0: Byte, b1: Byte, b2: Byte, b3: Byte): Word { b0 + b1 * 0x100 + b2 * 0x1_0000 + b3 * 0x100_0000 }

  function Pair(b0: Byte, b1: Byte): Word { b0 + b1 * 0x100 }

  /** A byte of a key that is continued with zeros */
  function At(k: seq<Byte>, i: nat): Byte { if i < |k| then k[i] else 0 }

  function WordAt(k: seq<Byte>, i: nat): Word { Join(At(k, i), At(k, i + 1), At(k, i + 2), At(k, i + 3)) }

  function HalfAt(k: seq<Byte>, i: nat): Word { Pair(At(k, i), At(k, i + 1)) }

  function Plus(s: Words, a: Word, b: Word, c: Word): Words { Words(Add(s.a, a), Add(s.b, b), Add(s.c, c)) }

  function Block(s: Words, k: seq<Byte>): Words { Plus(s, WordAt(k, 0), WordAt(k, 4), WordAt(k, 8)) }

  /** What a key makes of the state: blocks of twelve bytes are added and mixed in, and the last one, continued
      with zeros, closes the hash. */
  function Absorb(s: Words, k: seq<Byte>): Words
    decreases |k|
  {
    if |k| > 12 then Absorb(Mix(Block(s, k[..12])), k[12..])
    else if k == [] then s
    else Final(Block(s, k))
  }

  function Seeded(length: Word, pc: Word, pb: Word): Words {
    var i := Add(Add(SEED, length), pc);
    Words(i, i, Add(i, pb))
  }

  /** The two hashes of a key of bytes */
  function Hashes(k: seq<Byte>, pc: Word, pb: Word): (Word, Word) {
    var s := Absorb(Seeded(|k| % RANGE, pc, pb), k);
    (s.c, s.b)
  }

  lemma {:induction false} MaskIs(x: nat, k: nat, n: nat)
    requires x < Power(n) && k <= n
    ensures Bits(x, Power(k) - 1, n, Both) == x % Power(k)
  {
    if k == 0 {
      NoBits(x, n);
    } else {
      assert (Power(k) - 1) / 2 == Power(k - 1) - 1 && (Power(k) - 1) % 2 == 1;
      MaskIs(x / 2, k - 1, n - 1);
      HalfMod(x, Power(k - 1));
    }
  }

  lemma {:induction false} NoBits(x: nat, n: nat)
    ensures Bits(x, 0, n, Both) == 0
  {
    if n > 0 {
      NoBits(x / 2, n - 1);
    }
  }

  lemma HalfMod(x: nat, p: nat)
    requires p > 0
    ensures x % (2 * p) == x % 2 + 2 * (x / 2 % p)
  {
    var q, r := x / 2 / p, x / 2 % p;
    assert x / 2 == q * p + r;
    assert x == q * (2 * p) + (x % 2 + 2 * r);
    Remainder(x, 2 * p, q, x % 2 + 2 * r);
  }

  lemma Remainder(x: nat, d: nat, q: nat, r: nat)
    requires r < d && x == q * d + r
    ensures x % d == r
  {
    var e := x / d - q;
    assert x == x / d * d + x % d;
    assert (q + e) * d == q * d + e * d;
    assert e == 0 by {
      if e > 0 {
        assert e * d == (e - 1) * d + d;
        Product(e - 1, d);
      } else if e < 0 {
        Product(-e - 1, d);
      }
    }
  }

  lemma Product(x: nat, n: nat)
    ensures x * n >= 0 && (x + 1) * n == x * n + n && -(x + 1) * n == -(x * n) - n
  {}

  lemma LowPart(b0: Byte, b1: Byte, b2: Byte, b3: Byte)
    ensures Join(b0, b1, b2, b3) % 0x100_0000 == Join(b0, b1, b2, 0)
    ensures Join(b0, b1, b2, b3) % 0x1_0000 == Join(b0, b1, 0, 0)
    ensures Join(b0, b1, b2, b3) % 0x100 == Join(b0, 0, 0, 0)
  {
    var w := Join(b0, b1, b2, b3);
    Remainder(w, 0x100_0000, b3, Join(b0, b1, b2, 0));
    Remainder(w, 0x1_0000, b2 + b3 * 0x100, Join(b0, b1, 0, 0));
    Remainder(w, 0x100, b1 + b2 * 0x100 + b3 * 0x1_0000, Join(b0, 0, 0, 0));
  }

  lemma AndIs(w: Word, k: nat)
    requires k <= 32 && Power(k) <= RANGE
    ensures And(w, Power(k) - 1) == w % Power(k)
  {
    hide Bits, Power;
    PowersOfTwo();
    MaskIs(w, k, 32);
  }

  lemma Masked(b0: Byte, b1: Byte, b2: Byte, b3: Byte)
    ensures And(Join(b0, b1, b2, b3), 0xffffff) == Join(b0, b1, b2, 0)
    ensures And(Join(b0, b1, b2, b3), 0xffff) == Join(b0, b1, 0, 0)
    ensures And(Join(b0, b1, b2, b3), 0xff) == Join(b0, 0, 0, 0)
  {
    hide Bits, Power, And, Join;
    PowersOfTwo();
    LowPart(b0, b1, b2, b3);
    var w := Join(b0, b1, b2, b3);
    AndIs(w, 24);
    AndIs(w, 16);
    AndIs(w, 8);
  }

  /** Of the word at `p`, the first `n` bytes are added to `x`: as a word that is masked. */
  function AddedMasked(x: Word, m: seq<Byte>, p: nat, n: int): Word {
    if n >= 4 then Add(x, WordAt(m, p))
    else if n == 3 then Add(x, And(WordAt(m, p), 0xffffff))
    else if n == 2 then Add(x, And(WordAt(m, p), 0xffff))
    else if n == 1 then Add(x, And(WordAt(m, p), 0xff))
    else x
  }

  /** The same as halves of the word and odd bytes */
  function AddedHalves(x: Word, m: seq<Byte>, p: nat, n: int): Word {
    if n >= 4 then Add(x, Add(HalfAt(m, p), Shl(HalfAt(m, p + 2), 16)))
    else if n == 3 then Add(Add(x, Shl(At(m, p + 2), 16)), HalfAt(m, p))
    else if n == 2 then Add(x, HalfAt(m, p))
    else if n == 1 then Add(x, At(m, p))
    else x
  }

  /** The same byte by byte, the last one first */
  function AddedBytes(x: Word, m: seq<Byte>, p: nat, n: int): Word {
    var x3 := if n >= 4 then Add(x, Shl(At(m, p + 3), 24)) else x;
    var x2 := if n >= 3 then Add(x3, Shl(At(m, p + 2), 16)) else x3;
    var x1 := if n >= 2 then Add(x2, Shl(At(m, p + 1), 8)) else x2;
    if n >= 1 then Add(x1, At(m, p)) else x1
  }

  /** The first `n` bytes of the word at `p`, and zeros for the others */
  function Partial(m: seq<Byte>, p: nat, n: int): Word {
    Join(if n >= 1 then At(m, p) else 0, if n >= 2 then At(m, p + 1) else 0,
         if n >= 3 then At(m, p + 2) else 0, if n >= 4 then At(m, p + 3) else 0)
  }

  lemma ByMask(x: Word, m: seq<Byte>, p: nat, n: int)
    ensures AddedMasked(x, m, p, n) == Add(x, Partial(m, p, n))
  {
    hide And, Add, Join;
    Masked(At(m, p), At(m, p + 1), At(m, p + 2), At(m, p + 3));
    AddMoves(x, 0, 0);
    assert Join(0, 0, 0, 0) == 0 by { Zero(); }
  }

  lemma Zero()
    ensures Join(0, 0, 0, 0) == 0
  {}

  lemma ShiftedByte(b: Byte)
    ensures Shl(b, 8) == b * 0x100 && Shl(b, 16) == b * 0x1_0000 && Shl(b, 24) == b * 0x100_0000
  {
    hide Power;
    PowersOfTwo();
  }

  lemma NoCarry(x: Word, y: Word)
    requires x + y < RANGE
    ensures Add(x, y) == x + y
  {}

  lemma Joined(b0: Byte, b1: Byte, b2: Byte, b3: Byte)
    ensures Add(Pair(b0, b1), Shl(Pair(b2, b3), 16)) == Join(b0, b1, b2, b3)
    ensures Add(Shl(b2, 16), Pair(b0, b1)) == Join(b0, b1, b2, 0)
    ensures Add(Add(Add(Shl(b3, 24), Shl(b2, 16)), Shl(b1, 8)), b0) == Join(b0, b1, b2, b3)
    ensures Add(Add(Shl(b2, 16), Shl(b1, 8)), b0) == Join(b0, b1, b2, 0)
    ensures Add(Shl(b1, 8), b0) == Join(b0, b1, 0, 0)
    ensures Add(Add(Add(b0, Shl(b1, 8)), Shl(b2, 16)), Shl(b3, 24)) == Join(b0, b1, b2, b3)
    ensures Pair(b0, b1) == Join(b0, b1, 0, 0) && b0 == Join(b0, 0, 0, 0)
  {
    hide Power, Add, Shl;
    ShiftedByte(b1);
    ShiftedByte(b2);
    ShiftedByte(b3);
    ShiftedPair(b2, b3);
    NoCarry(Pair(b0, b1), Shl(Pair(b2, b3), 16));
    NoCarry(Shl(b2, 16), Pair(b0, b1));
    NoCarry(Shl(b3, 24), Shl(b2, 16));
    NoCarry(Add(Shl(b3, 24), Shl(b2, 16)), Shl(b1, 8));
    NoCarry(Add(Add(Shl(b3, 24), Shl(b2, 16)), Shl(b1, 8)), b0);
    NoCarry(Shl(b2, 16), Shl(b1, 8));
    NoCarry(Add(Shl(b2, 16), Shl(b1, 8)), b0);
    NoCarry(Shl(b1, 8), b0);
    NoCarry(b0, Shl(b1, 8));
    NoCarry(Add(b0, Shl(b1, 8)), Shl(b2, 16));
    NoCarry(Add(Add(b0, Shl(b1, 8)), Shl(b2, 16)), Shl(b3, 24));
  }

  lemma ShiftedPair(b2: Byte, b3: Byte)
    ensures Shl(Pair(b2, b3), 16) == b2 * 0x1_0000 + b3 * 0x100_0000
  {
    hide Power;
    PowersOfTwo();
  }

  lemma AddMoves3(x: Word, a: Word, b: Word, c: Word, d: Word)
    ensures Add(Add(x, a), b) == Add(x, Add(a, b))
    ensures Add(Add(Add(x, a), b), c) == Add(x, Add(Add(a, b), c))
    ensures Add(Add(Add(Add(x, a), b), c), d) == Add(x, Add(Add(Add(a, b), c), d))
  {
    hide Add;
    AddMoves(x, a, b);
    AddMoves(x, Add(a, b), c);
    AddMoves(x, Add(Add(a, b), c), d);
  }

  lemma ByHalves(x: Word, m: seq<Byte>, p: nat, n: int)
    ensures AddedHalves(x, m, p, n) == Add(x, Partial(m, p, n))
  {
    hide Add, Join, Shl, Pair;
    var b0, b1, b2, b3 := At(m, p), At(m, p + 1), At(m, p + 2), At(m, p + 3);
    Joined(b0, b1, b2, b3);
    AddMoves(x, Shl(b2, 16), Pair(b0, b1));
    AddMoves(x, 0, 0);
    Zero();
  }

  lemma ByBytes(x: Word, m: seq<Byte>, p: nat, n: int)
    ensures AddedBytes(x, m, p, n) == Add(x, Partial(m, p, n))
  {
    hide Add, Join, Shl, Pair;
    var b0, b1, b2, b3 := At(m, p), At(m, p + 1), At(m, p + 2), At(m, p + 3);
    Joined(b0, b1, b2, b3);
    AddMoves3(x, Shl(b3, 24), Shl(b2, 16), Shl(b1, 8), b0);
    AddMoves3(x, Shl(b2, 16), Shl(b1, 8), b0, 0);
    AddMoves3(x, Shl(b1, 8), b0, 0, 0);
    AddMoves(x, 0, 0);
    Zero();
  }

  /** The rest of the key at `p`, in the block of the whole memory */
  lemma LastBlock(s: Words, m: seq<Byte>, p: nat, size: nat)
    requires p <= size <= |m|
    ensures var n := size - p; Block(s, m[p..size]) == Plus(s, Partial(m, p, n), Partial(m, p + 4, n - 4), Partial(m, p + 8, n - 8))
  {
    hide Add, Join;
  }

  lemma WholeBlock(s: Words, m: seq<Byte>, p: nat, size: nat)
    requires p + 12 < size <= |m|
    ensures Absorb(s, m[p..size]) == Absorb(Mix(Plus(s, WordAt(m, p), WordAt(m, p + 4), WordAt(m, p + 8))), m[p + 12..size])
  {
    hide Add, Join, Mix;
    var k := m[p..size];
    assert k[12..] == m[p + 12..size];
    assert Block(s, k[..12]) == Plus(s, WordAt(m, p), WordAt(m, p + 4), WordAt(m, p + 8));
  }

  /** The path of `hashlittle` for an address on a word: the last word is read whole, past the end of the key,
      and what is past it is masked. */
  method ByWords(m: seq<Byte>, size: nat, s0: Words) returns (s: Words)
    requires size <= |m|
    ensures s == Absorb(s0, m[..size])
  {
    hide Absorb, Add, And, WordAt, Mix, Final, Block, Partial;
    var a, b, c := s0.a, s0.b, s0.c;
    var length, k := size, 0;
    while length > 12
      invariant k + length == size && Absorb(Words(a, b, c), m[k..size]) == Absorb(s0, m[..size])
    {
      WholeBlock(Words(a, b, c), m, k, size);
      a, b, c := Add(a, WordAt(m, k)), Add(b, WordAt(m, k + 4)), Add(c, WordAt(m, k + 8));
      s := Mix(Words(a, b, c));
      a, b, c := s.a, s.b, s.c;
      length, k := length - 12, k + 12;
    }
    Closing(Words(a, b, c), m, k, size);
    match length {
      case 12 => c := Add(c, WordAt(m, k + 8)); b := Add(b, WordAt(m, k + 4)); a := Add(a, WordAt(m, k));
      case 11 => c := Add(c, And(WordAt(m, k + 8), 0xffffff)); b := Add(b, WordAt(m, k + 4)); a := Add(a, WordAt(m, k));
      case 10 => c := Add(c, And(WordAt(m, k + 8), 0xffff)); b := Add(b, WordAt(m, k + 4)); a := Add(a, WordAt(m, k));
      case 9 => c := Add(c, And(WordAt(m, k + 8), 0xff)); b := Add(b, WordAt(m, k + 4)); a := Add(a, WordAt(m, k));
      case 8 => b := Add(b, WordAt(m, k + 4)); a := Add(a, WordAt(m, k));
      case 7 => b := Add(b, And(WordAt(m, k + 4), 0xffffff)); a := Add(a, WordAt(m, k));
      case 6 => b := Add(b, And(WordAt(m, k + 4), 0xffff)); a := Add(a, WordAt(m, k));
      case 5 => b := Add(b, And(WordAt(m, k + 4), 0xff)); a := Add(a, WordAt(m, k));
      case 4 => a := Add(a, WordAt(m, k));
      case 3 => a := Add(a, And(WordAt(m, k), 0xffffff));
      case 2 => a := Add(a, And(WordAt(m, k), 0xffff));
      case 1 => a := Add(a, And(WordAt(m, k), 0xff));
      case _ => return Words(a, b, c);
    }
    s := Final(Words(a, b, c));
  }

  /** The path for an address on a half word */
  method ByHalfWords(m: seq<Byte>, size: nat, s0: Words) returns (s: Words)
    requires size <= |m|
    ensures s == Absorb(s0, m[..size])
  {
    hide Absorb, Add, WordAt, HalfAt, At, Shl, Mix, Final, Block, Partial;
    var a, b, c := s0.a, s0.b, s0.c;
    var length, k := size, 0;
    while length > 12
      invariant k + length == size && Absorb(Words(a, b, c), m[k..size]) == Absorb(s0, m[..size])
    {
      WholeBlock(Words(a, b, c), m, k, size);
      WordOfHalves(m, k);
      WordOfHalves(m, k + 4);
      WordOfHalves(m, k + 8);
      a := Add(a, Add(HalfAt(m, k), Shl(HalfAt(m, k + 2), 16)));
      b := Add(b, Add(HalfAt(m, k + 4), Shl(HalfAt(m, k + 6), 16)));
      c := Add(c, Add(HalfAt(m, k + 8), Shl(HalfAt(m, k + 10), 16)));
      s := Mix(Words(a, b, c));
      a, b, c := s.a, s.b, s.c;
      length, k := length - 12, k + 12;
    }
    Closing(Words(a, b, c), m, k, size);
    if length == 0 {
      return Words(a, b, c);
    }
    if length == 12 {
      c := Add(c, Add(HalfAt(m, k + 8), Shl(HalfAt(m, k + 10), 16)));
    } else if length >= 10 {
      if length == 11 {
        c := Add(c, Shl(At(m, k + 10), 16));
      }
      c := Add(c, HalfAt(m, k + 8));
    } else if length == 9 {
      c := Add(c, At(m, k + 8));
    }
    if length >= 8 {
      b := Add(b, Add(HalfAt(m, k + 4), Shl(HalfAt(m, k + 6), 16)));
    } else if length >= 6 {
      if length == 7 {
        b := Add(b, Shl(At(m, k + 6), 16));
      }
      b := Add(b, HalfAt(m, k + 4));
    } else if length == 5 {
      b := Add(b, At(m, k + 4));
    }
    if length >= 4 {
      a := Add(a, Add(HalfAt(m, k), Shl(HalfAt(m, k + 2), 16)));
    } else if length >= 2 {
      if length == 3 {
        a := Add(a, Shl(At(m, k + 2), 16));
      }
      a := Add(a, HalfAt(m, k));
    } else {
      a := Add(a, At(m, k));
    }
    s := Final(Words(a, b, c));
  }

  /** The path for any other address: the cases of the last block fall through from the longest to the shortest. */
  method BySingleBytes(m: seq<Byte>, size: nat, s0: Words) returns (s: Words)
    requires size <= |m|
    ensures s == Absorb(s0, m[..size])
  {
    hide Absorb, Add, WordAt, At, Shl, Mix, Final, Block, Partial;
    var a, b, c := s0.a, s0.b, s0.c;
    var length, k := size, 0;
    while length > 12
      invariant k + length == size && Absorb(Words(a, b, c), m[k..size]) == Absorb(s0, m[..size])
    {
      WholeBlock(Words(a, b, c), m, k, size);
      WordOfBytes(a, m, k);
      WordOfBytes(b, m, k + 4);
      WordOfBytes(c, m, k + 8);
      a := Add(a, At(m, k));
      a := Add(a, Shl(At(m, k + 1), 8));
      a := Add(a, Shl(At(m, k + 2), 16));
      a := Add(a, Shl(At(m, k + 3), 24));
      b := Add(b, At(m, k + 4));
      b := Add(b, Shl(At(m, k + 5), 8));
      b := Add(b, Shl(At(m, k + 6), 16));
      b := Add(b, Shl(At(m, k + 7), 24));
      c := Add(c, At(m, k + 8));
      c := Add(c, Shl(At(m, k + 9), 8));
      c := Add(c, Shl(At(m, k + 10), 16));
      c := Add(c, Shl(At(m, k + 11), 24));
      s := Mix(Words(a, b, c));
      a, b, c := s.a, s.b, s.c;
      length, k := length - 12, k + 12;
    }
    Closing(Words(a, b, c), m, k, size);
    if length == 0 {
      return Words(a, b, c);
    }
    if length >= 12 { c := Add(c, Shl(At(m, k + 11), 24)); }
    if length >= 11 { c := Add(c, Shl(At(m, k + 10), 16)); }
    if length >= 10 { c := Add(c, Shl(At(m, k + 9), 8)); }
    if length >= 9 { c := Add(c, At(m, k + 8)); }
    if length >= 8 { b := Add(b, Shl(At(m, k + 7), 24)); }
    if length >= 7 { b := Add(b, Shl(At(m, k + 6), 16)); }
    if length >= 6 { b := Add(b, Shl(At(m, k + 5), 8)); }
    if length >= 5 { b := Add(b, At(m, k + 4)); }
    if length >= 4 { a := Add(a, Shl(At(m, k + 3), 24)); }
    if length >= 3 { a := Add(a, Shl(At(m, k + 2), 16)); }
    if length >= 2 { a := Add(a, Shl(At(m, k + 1), 8)); }
    a := Add(a, At(m, k));
    s := Final(Words(a, b, c));
  }

  lemma WordOfHalves(m: seq<Byte>, p: nat)
    ensures Add(HalfAt(m, p), Shl(HalfAt(m, p + 2), 16)) == WordAt(m, p)
  {
    hide Add, Shl, Join, Pair;
    Joined(At(m, p), At(m, p + 1), At(m, p + 2), At(m, p + 3));
  }

  lemma WordOfBytes(x: Word, m: seq<Byte>, p: nat)
    ensures Add(Add(Add(Add(x, At(m, p)), Shl(At(m, p + 1), 8)), Shl(At(m, p + 2), 16)), Shl(At(m, p + 3), 24)) == Add(x, WordAt(m, p))
  {
    hide Add, Shl, Join;
    Joined(At(m, p), At(m, p + 1), At(m, p + 2), At(m, p + 3));
    AddMoves3(x, At(m, p), Shl(At(m, p + 1), 8), Shl(At(m, p + 2), 16), Shl(At(m, p + 3), 24));
  }

  /** What each path makes of the last block */
  lemma Closing(s: Words, m: seq<Byte>, p: nat, size: nat)
    requires p <= size <= |m| && size - p <= 12
    ensures p == size ==> Absorb(s, m[p..size]) == s
    ensures var n := size - p; n > 0 ==>
      && Absorb(s, m[p..size]) == Final(Words(AddedMasked(s.a, m, p, n), AddedMasked(s.b, m, p + 4, n - 4), AddedMasked(s.c, m, p + 8, n - 8)))
      && Absorb(s, m[p..size]) == Final(Words(AddedHalves(s.a, m, p, n), AddedHalves(s.b, m, p + 4, n - 4), AddedHalves(s.c, m, p + 8, n - 8)))
      && Absorb(s, m[p..size]) == Final(Words(AddedBytes(s.a, m, p, n), AddedBytes(s.b, m, p + 4, n - 4), AddedBytes(s.c, m, p + 8, n - 8)))
  {
    hide Add, Partial, Final, Block, AddedMasked, AddedHalves, AddedBytes;
    var n := size - p;
    LastBlock(s, m, p, size);
    ByMask(s.a, m, p, n); ByMask(s.b, m, p + 4, n - 4); ByMask(s.c, m, p + 8, n - 8);
    ByHalves(s.a, m, p, n); ByHalves(s.b, m, p + 4, n - 4); ByHalves(s.c, m, p + 8, n - 8);
    ByBytes(s.a, m, p, n); ByBytes(s.b, m, p + 4, n - 4); ByBytes(s.c, m, p + 8, n - 8);
  }

  /** `hashlittle`: the alignment of the address, and what lies behind the key, do not matter. */
  method HashLittle(m: seq<Byte>, address: nat, length: nat, initval: Word) returns (h: Word)
    requires length < RANGE && length <= |m|
    ensures h == Hashes(m[..length], initval, 0).0
  {
    hide Absorb, Add;
    var i := Add(Add(SEED, length), initval);
    AddMoves(i, 0, 0);
    var s := Words(i, i, i);
    if address % 4 == 0 {
      s := ByWords(m, length, s);
    } else if address % 2 == 0 {
      s := ByHalfWords(m, length, s);
    } else {
      s := BySingleBytes(m, length, s);
    }
    h := s.c;
  }

  /** `hashlittle2` */
  method HashLittle2(m: seq<Byte>, address: nat, length: nat, pc: Word, pb: Word) returns (c: Word, b: Word)
    requires length < RANGE && length <= |m|
    ensures (c, b) == Hashes(m[..length], pc, pb)
  {
    hide Absorb, Add;
    var i := Add(Add(SEED, length), pc);
    var s := Words(i, i, Add(i, pb));
    if address % 4 == 0 {
      s := ByWords(m, length, s);
    } else if address % 2 == 0 {
      s := ByHalfWords(m, length, s);
    } else {
      s := BySingleBytes(m, length, s);
    }
    c, b := s.c, s.b;
  }

  function FourBytes(w: Word): (r: seq<Byte>)
    ensures |r| == 4
  {
    [w % 0x100, w / 0x100 % 0x100, w / 0x100 / 0x100 % 0x100, w / 0x100 / 0x100 / 0x100 % 0x100]
  }

  /** The bytes of a key of words, on a little-endian machine */
  function BytesOf(k: seq<Word>): (r: seq<Byte>)
    ensures |r| == 4 * |k|
  {
    if k == [] then []
    else FourBytes(k[0]) + BytesOf(k[1..])
  }

  /** `hashword` */
  method HashWord(k: seq<Word>, initval: Word) returns (h: Word)
    requires 4 * |k| < RANGE
    ensures h == Hashes(BytesOf(k), initval, 0).0
  {
    hide Absorb, Add, Shl;
    ShiftedLength(|k|);
    var i := Add(Add(SEED, Shl(|k|, 2)), initval);
    AddMoves(i, 0, 0);
    var s := WordLoop(k, Words(i, i, i));
    h := s.c;
  }

  /** `hashword2` */
  method HashWord2(k: seq<Word>, pc: Word, pb: Word) returns (c: Word, b: Word)
    requires 4 * |k| < RANGE
    ensures (c, b) == Hashes(BytesOf(k), pc, pb)
  {
    hide Absorb, Add, Shl;
    ShiftedLength(|k|);
    var i := Add(Add(SEED, Shl(|k|, 2)), pc);
    var s := WordLoop(k, Words(i, i, Add(i, pb)));
    c, b := s.c, s.b;
  }

  /** The loop and the last words of `hashword` and `hashword2` */
  method WordLoop(key: seq<Word>, s0: Words) returns (s: Words)
    ensures s == Absorb(s0, BytesOf(key))
  {
    hide Absorb, Add, Mix, Final, BytesOf, AbsorbFrom;
    var a, b, c := s0.a, s0.b, s0.c;
    var length, k := |key|, 0;
    FromStart(s0, key);
    while length > 3
      invariant 0 <= k <= k + length == |key|
      invariant AbsorbFrom(Words(a, b, c), key, k) == Absorb(s0, BytesOf(key))
    {
      WordBlock(Words(a, b, c), key, k);
      a, b, c := Add(a, key[k]), Add(b, key[k + 1]), Add(c, key[k + 2]);
      s := Mix(Words(a, b, c));
      a, b, c := s.a, s.b, s.c;
      length, k := length - 3, k + 3;
    }
    WordClosing(Words(a, b, c), key, k);
    if length == 0 {
      return Words(a, b, c);
    }
    if length >= 3 { c := Add(c, key[k + 2]); }
    if length >= 2 { b := Add(b, key[k + 1]); }
    a := Add(a, key[k]);
    s := Final(Words(a, b, c));
  }

  ghost function AbsorbFrom(s: Words, key: seq<Word>, k: nat): Words
    requires k <= |key|
  {
    Absorb(s, BytesOf(key)[4 * k..])
  }

  lemma FromStart(s: Words, key: seq<Word>)
    ensures AbsorbFrom(s, key, 0) == Absorb(s, BytesOf(key))
  {
    hide Absorb, BytesOf;
    assert BytesOf(key)[0..] == BytesOf(key);
  }

  lemma WordBlock(s: Words, key: seq<Word>, k: nat)
    requires k + 3 < |key|
    ensures AbsorbFrom(s, key, k)
      == AbsorbFrom(Mix(Words(Add(s.a, key[k]), Add(s.b, key[k + 1]), Add(s.c, key[k + 2]))), key, k + 3)
  {
    hide Absorb, Add, Mix, WordAt, BytesOf;
    var m, p := BytesOf(key), 4 * k;
    assert m[p..] == m[p..|m|] && m[p + 12..] == m[p + 12..|m|];
    WholeBlock(s, m, p, |m|);
    BytesAt(key, k); BytesAt(key, k + 1); BytesAt(key, k + 2);
  }

  lemma WordClosing(s: Words, key: seq<Word>, k: nat)
    requires k <= |key| <= k + 3
    ensures k == |key| ==> AbsorbFrom(s, key, k) == s
    ensures k < |key| ==>
      AbsorbFrom(s, key, k) == Final(Words(Add(s.a, key[k]), if k + 1 < |key| then Add(s.b, key[k + 1]) else s.b,
                                           if k + 2 < |key| then Add(s.c, key[k + 2]) else s.c))
  {
    hide Absorb, Add, Final, WordAt, BytesOf, AddedHalves, AddedBytes;
    var m, p := BytesOf(key), 4 * k;
    assert m[p..] == m[p..|m|];
    Closing(s, m, p, |m|);
    if k < |key| { BytesAt(key, k); }
    if k + 1 < |key| { BytesAt(key, k + 1); }
    if k + 2 < |key| { BytesAt(key, k + 2); }
  }

  lemma {:induction false} BytesAt(k: seq<Word>, i: nat)
    requires i < |k|
    ensures WordAt(BytesOf(k), 4 * i) == k[i]
  {
    hide Join;
    var m := BytesOf(k);
    if i == 0 {
      Rejoined(k[0]);
    } else {
      BytesAt(k[1..], i - 1);
      assert m[4..] == BytesOf(k[1..]);
      Later(m, 4 * i);
    }
  }

  lemma Later(m: seq<Byte>, p: nat)
    requires 4 <= p && p + 4 <= |m|
    ensures WordAt(m, p) == WordAt(m[4..], p - 4)
  {}

  lemma Rejoined(w: Word)
    ensures var b := FourBytes(w); Join(b[0], b[1], b[2], b[3]) == w
  {
    var q1 := w / 0x100;
    var q2 := q1 / 0x100;
    var q3 := q2 / 0x100;
    assert w == 0x100 * q1 + w % 0x100;
    assert q1 == 0x100 * q2 + q1 % 0x100;
    assert q2 == 0x100 * q3 + q2 % 0x100;
    assert q3 < 0x100;
  }

  lemma ShiftedLength(n: nat)
    requires 4 * n < RANGE
    ensures Shl(n, 2) == 4 * n
  {
    assert Power(2) == 4;
  }
}
