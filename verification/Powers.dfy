/** Powers of two, and what masking with them does: the allocator tests and rounds with masks, the other
    components index with them. */
module Powers {
  import opened BinIndex
  import opened BinMaps

  predicate PowerOfTwo(n: int) {
    n == 1 || (n > 1 && n % 2 == 0 && PowerOfTwo(n / 2))
  }

  // ---------------------------------------------------------------- the test

  /** `x & (x - 1) == 0` */
  predicate TestedPower(x: bv32) { x & (x - 1) == 0 }

  lemma TestStep(x: bv32)
    requires x > 1
    ensures TestedPower(x) <==> !OddWord(x) && TestedPower(Halved(x))
    ensures Halved(x) != 0
  {}

  lemma OneTested()
    ensures TestedPower(1) && Value(1) == 1
  {}

  lemma AboveOne(x: bv32)
    requires Value(x) > 1
    ensures x > 1
  {}

  lemma ValueOfOne(x: bv32)
    requires Value(x) == 1
    ensures x == 1
  {}

  lemma {:induction false} TestedIs(x: bv32)
    requires Value(x) > 0
    ensures TestedPower(x) <==> PowerOfTwo(Value(x))
    decreases Value(x)
  {
    hide Value, Halved, OddWord, TestedPower;
    if Value(x) == 1 {
      ValueOfOne(x);
      OneTested();
    } else {
      AboveOne(x);
      TestStep(x);
      Split(x);
      TestedIs(Halved(x));
    }
  }

  /** The test the code makes. */
  predicate SeemsPower(n: nat)
    requires n < WORD
  {
    TestedPower(n as bv32)
  }

  /** It tells exactly the powers of two. */
  lemma PowerTest(n: nat)
    requires 0 < n < WORD
    ensures SeemsPower(n) <==> PowerOfTwo(n)
  {
    WordValue(n);
    hide Value, TestedPower;
    TestedIs(n as bv32);
  }

  // ---------------------------------------------------------------- masks

  /** The two masks that go with the power of two `a`. */
  function Rest(x: bv32, a: bv32): bv32 { AndMask(x, Less(a)) }

  function Down(x: bv32, a: bv32): bv32 { AndMask(x, Negated(a)) }

  function AndMask(x: bv32, m: bv32): bv32 { x & m }

  function Less(a: bv32): bv32 { a - 1 }

  function Negated(a: bv32): bv32 { 0 - a }

  /** `-a`, as the code has it, and `~(a - 1)` are the same mask. */
  lemma SameMask(a: bv32)
    ensures 0 - a == !(a - 1)
  {}

  lemma LessOfEven(a: bv32)
    requires !OddWord(a)
    ensures Less(a) == Appended(Less(Halved(a)), true)
  {}

  lemma NegatedOfEven(a: bv32)
    requires !OddWord(a)
    ensures Negated(a) == Appended(Negated(Halved(a)), false)
  {}

  lemma AndEven(x: bv32, m: bv32)
    ensures x & (m << 1) == ((x >> 1) & m) << 1 && (x >> 1) & m < 0x8000_0000
  {}

  lemma AndOdd(x: bv32, m: bv32)
    requires x & 1 != 0
    ensures x & ((m << 1) | 1) == (((x >> 1) & m) << 1) | 1
  {}

  lemma AndOddEven(x: bv32, m: bv32)
    requires x & 1 == 0
    ensures x & ((m << 1) | 1) == ((x >> 1) & m) << 1
  {}

  lemma MaskedEven(x: bv32, m: bv32)
    ensures AndMask(x, Appended(m, false)) == Appended(AndMask(Halved(x), m), false) && AndMask(Halved(x), m) < 0x8000_0000
  {
    AndEven(x, m);
  }

  lemma MaskedOdd(x: bv32, m: bv32)
    ensures AndMask(x, Appended(m, true)) == Appended(AndMask(Halved(x), m), OddWord(x))
  {
    if OddWord(x) {
      AndOdd(x, m);
    } else {
      AndOddEven(x, m);
    }
  }

  lemma MaskStep(x: bv32, a: bv32)
    requires !OddWord(a)
    ensures Rest(x, a) == Appended(Rest(Halved(x), Halved(a)), OddWord(x))
    ensures Down(x, a) == Appended(Down(Halved(x), Halved(a)), false)
    ensures Rest(Halved(x), Halved(a)) < 0x8000_0000 && Down(Halved(x), Halved(a)) < 0x8000_0000
  {
    hide Less, Negated, AndMask, Appended, Halved, OddWord;
    LessOfEven(a);
    NegatedOfEven(a);
    MaskedOdd(x, Less(Halved(a)));
    MaskedEven(x, Less(Halved(a)));
    MaskedEven(x, Negated(Halved(a)));
  }

  lemma MaskOne(x: bv32)
    ensures Rest(x, 1) == 0 && Down(x, 1) == x
  {}

  lemma {:induction false} MaskValues(x: bv32, a: bv32)
    requires Value(a) > 0 && PowerOfTwo(Value(a))
    ensures Value(Rest(x, a)) == Value(x) % Value(a)
    ensures Value(Down(x, a)) == Value(x) - Value(x) % Value(a)
    decreases Value(a)
  {
    hide Value, Halved, OddWord, Rest, Down, Appended;
    if Value(a) == 1 {
      ValueOfOne(a);
      MaskOne(x);
      ZeroValue();
    } else {
      AboveOne(a);
      Split(a);
      Split(x);
      MaskStep(x, a);
      MaskValues(Halved(x), Halved(a));
      AppendedValue(Rest(Halved(x), Halved(a)), OddWord(x));
      AppendedValue(Down(Halved(x), Halved(a)), false);
      HalfRest(Value(Halved(x)), if OddWord(x) then 1 else 0, Value(Halved(a)));
    }
  }

  lemma HalfRest(h: nat, o: nat, b: nat)
    requires b > 0 && o < 2
    ensures (2 * h + o) % (2 * b) == 2 * (h % b) + o
  {
    var q := h / b;
    assert h == b * q + h % b;
    assert 2 * h + o == (2 * b) * q + (2 * (h % b) + o);
    RestUnique(2 * h + o, 2 * b, q, 2 * (h % b) + o);
  }

  lemma RestUnique(x: nat, n: nat, q: nat, r: nat)
    requires x == n * q + r && r < n
    ensures x % n == r
  {
    Multiples(n, q - x / n);
    assert n * q == n * (x / n) + n * (q - x / n);
  }

  lemma Multiples(n: int, d: int)
    requires n >= 0
    ensures d >= 1 ==> n * d >= n
    ensures d <= -1 ==> n * d <= -n
  {
    if d >= 1 {
      assert n * d == n + n * (d - 1);
    } else if d <= -1 {
      assert n * d == -n + n * (d + 1);
    }
  }

  /** What the code computes with the masks `a - 1` and `-a`. */
  function MaskedRest(n: nat, a: nat): nat
    requires n < WORD && a < WORD
  {
    Value(Rest(n as bv32, a as bv32))
  }

  function MaskedDown(n: nat, a: nat): nat
    requires n < WORD && a < WORD
  {
    Value(Down(n as bv32, a as bv32))
  }

  /** They take the remainder, and round down. */
  lemma Masks(n: nat, a: nat)
    requires n < WORD && a < WORD && PowerOfTwo(a)
    ensures MaskedRest(n, a) == n % a && MaskedDown(n, a) == n - n % a
  {
    WordValue(n);
    WordValue(a);
    hide Value, Rest, Down;
    MaskValues(n as bv32, a as bv32);
  }
}
