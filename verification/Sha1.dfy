/** SHA-1 over a stream: the message comes in pieces of any size, of which whole blocks are hashed and the rest
    waits in a buffer.  The reference is FIPS 180-4. */
module Sha1 {
  const RANGE := 0x1_0000_0000

  /** Longer pieces would overflow the sums of a length and a place in the buffer. */
  const MAX_PIECE := RANGE - 64

  type Word = x: int | 0 <= x < RANGE

  function Add(x: bv32, y: bv32): bv32 { x + y }

  function Xor(x: bv32, y: bv32): bv32 { x ^ y }

  /** `rol`, by the three distances that occur */
  function Rol1(x: bv32): bv32 { (x << 1) | (x >> 31) }

  function Rol5(x: bv32): bv32 { (x << 5) | (x >> 27) }

  function Rol30(x: bv32): bv32 { (x << 30) | (x >> 2) }

  /** The five working variables, and the five words of a hash value */
  datatype Regs = Regs(a: bv32, b: bv32, c: bv32, d: bv32, e: bv32)

  /** Section 5.3.1 */
  const INITIAL := Regs(0x67452301, 0xEFCDAB89, 0x98BADCFE, 0x10325476, 0xC3D2E1F0)

  /** The functions of section 4.1.1 */
  function Ch(x: bv32, y: bv32, z: bv32): bv32 { (x & y) ^ ((!x) & z) }

  function Parity(x: bv32, y: bv32, z: bv32): bv32 { (x ^ y) ^ z }

  function Maj(x: bv32, y: bv32, z: bv32): bv32 { ((x & y) ^ (x & z)) ^ (y & z) }

  function F(t: nat, x: bv32, y: bv32, z: bv32): bv32 {
    if t < 20 then Ch(x, y, z) else if t < 40 then Parity(x, y, z) else if t < 60 then Maj(x, y, z) else Parity(x, y, z)
  }

  /** The constants of section 4.2.1 */
  function K(t: nat): bv32 {
    if t < 20 then 0x5a827999 else if t < 40 then 0x6ed9eba1 else if t < 60 then 0x8f1bbcdc else 0xca62c1d6
  }

  /** They are the first 32 bits of the square roots of 2, 3, 5 and 10, for twenty rounds each. */
  lemma KIsRoot(t: nat)
    requires t < 80
    ensures var n, k := [2, 3, 5, 10][t / 20], K(t) as int;
            k * k <= n * 0x1000_0000_0000_0000 < (k + 1) * (k + 1)
  {
    assert t / 20 == if t < 20 then 0 else if t < 40 then 1 else if t < 60 then 2 else 3;
  }

  /** The message schedule of section 6.1.2, which has eighty words */
  function W(m: seq<bv32>, t: nat): bv32
    requires |m| == 16
  {
    if t < 16 then m[t] else Rol1(Xor(Xor(Xor(W(m, t - 3), W(m, t - 8)), W(m, t - 14)), W(m, t - 16)))
  }

  /** What is added to the working variable `e`; sums are modulo 2^32, so that their order does not matter. */
  function Sum(t: nat, r: Regs, w: bv32): bv32 {
    Add(Add(Add(F(t, r.b, r.c, r.d), w), K(t)), Rol5(r.a))
  }

  function Round(t: nat, r: Regs, w: bv32): Regs { Regs(Add(r.e, Sum(t, r, w)), r.a, Rol30(r.b), r.c, r.d) }

  /** The working variables after `t` rounds */
  function Rounds(h: Regs, m: seq<bv32>, t: nat): Regs
    requires |m| == 16
  {
    if t == 0 then h else Round(t - 1, Rounds(h, m, t - 1), W(m, t - 1))
  }

  /** The hash value after one more block */
  function Compress(h: Regs, m: seq<bv32>): Regs
    requires |m| == 16
  {
    var r := Rounds(h, m, 80);
    Regs(Add(h.a, r.a), Add(h.b, r.b), Add(h.c, r.c), Add(h.d, r.d), Add(h.e, r.e))
  }

  /** The big-endian word of four bytes */
  function BigEndian(b0: bv8, b1: bv8, b2: bv8, b3: bv8): bv32 {
    ((((b0 as bv32) << 24) | ((b1 as bv32) << 16)) | ((b2 as bv32) << 8)) | (b3 as bv32)
  }

  function BlockWords(block: seq<bv8>): (m: seq<bv32>)
    requires |block| == 64
    ensures |m| == 16
  {
    seq(16, i requires 0 <= i < 16 => BigEndian(block[4 * i], block[4 * i + 1], block[4 * i + 2], block[4 * i + 3]))
  }

  /** The hash value of whole blocks */
  function HashBlocks(m: seq<bv8>): Regs
    requires |m| % 64 == 0
    decreases |m|
  {
    if m == [] then INITIAL else Compress(HashBlocks(m[..|m| - 64]), BlockWords(m[|m| - 64..]))
  }

  /** The machine reads a word in little-endian order, and its bytes are swapped in place. */
  function LittleEndian(b0: bv8, b1: bv8, b2: bv8, b3: bv8): bv32 {
    ((((b3 as bv32) << 24) | ((b2 as bv32) << 16)) | ((b1 as bv32) << 8)) | (b0 as bv32)
  }

  function Swapped(x: bv32): bv32 { (((x << 24) | (x >> 8)) & 0xFF00FF00) | (((x << 8) | (x >> 24)) & 0x00FF00FF) }

  lemma SwapIs(b0: bv8, b1: bv8, b2: bv8, b3: bv8)
    ensures Swapped(LittleEndian(b0, b1, b2, b3)) == BigEndian(b0, b1, b2, b3)
  {}

  /** The functions as the rounds `R0` to `R4` compute them */
  function FastF(t: nat, w: bv32, x: bv32, y: bv32): bv32 {
    if t < 20 then (w & (x ^ y)) ^ y else if t < 40 then (w ^ x) ^ y else if t < 60 then ((w | x) & y) | (w & x) else (w ^ x) ^ y
  }

  lemma FastCh(w: bv32, x: bv32, y: bv32)
    ensures (w & (x ^ y)) ^ y == Ch(w, x, y)
  {}

  lemma FastMaj(w: bv32, x: bv32, y: bv32)
    ensures ((w | x) & y) | (w & x) == Maj(w, x, y)
  {}

  lemma FastParity(w: bv32, x: bv32, y: bv32)
    ensures (w ^ x) ^ y == Parity(w, x, y)
  {}

  lemma FastIs(t: nat, w: bv32, x: bv32, y: bv32)
    ensures FastF(t, w, x, y) == F(t, w, x, y)
  {
    hide Ch, Maj, Parity;
    FastCh(w, x, y);
    FastMaj(w, x, y);
    FastParity(w, x, y);
  }

  /** The register that has role `k` in round `t`: roles move down by one from round to round. */
  function Role(t: nat, k: nat): (i: nat)
    requires k < 5
    ensures i < 5
  {
    if k >= t % 5 then k - t % 5 else k + 5 - t % 5
  }

  ghost function InRoles(r: seq<bv32>, t: nat): Regs
    requires |r| == 5
  {
    Regs(r[Role(t, 0)], r[Role(t, 1)], r[Role(t, 2)], r[Role(t, 3)], r[Role(t, 4)])
  }

  /** The circular schedule: of the last sixteen words of the schedule, word `t` is in place `t % 16`; words
      that have not been reached are as they were read. */
  ghost predicate Circular(l: seq<bv32>, raw: seq<bv32>, m: seq<bv32>, t: nat)
    requires |m| == 16
  {
    && |l| == |raw| == 16
    && forall i {:trigger l[i]} :: 0 <= i < 16 ==> l[i] == if i < t then W(m, Last(t, i)) else raw[i]
  }

  /** The last number below `t` that is `i` modulo 16 */
  function Last(t: nat, i: nat): nat
    requires i < 16 && i < t
  {
    i + (t - 1 - i) / 16 * 16
  }

  /** The schedule in place goes on: word `t` replaces word `t - 16`. */
  lemma CircularStep(l: seq<bv32>, raw: seq<bv32>, m: seq<bv32>, t: nat)
    requires |m| == 16 && Circular(l, raw, m, t) && t >= 16
    ensures l[(t + 13) % 16] == W(m, t - 3) && l[(t + 8) % 16] == W(m, t - 8) && l[(t + 2) % 16] == W(m, t - 14)
    ensures l[t % 16] == W(m, t - 16)
    ensures Circular(l[t % 16 := W(m, t)], raw, m, t + 1)
  {
    hide W;
    InPlace(t, 3); InPlace(t, 8); InPlace(t, 14); InPlace(t, 16);
    assert Last(t + 1, t % 16) == t by { InPlace(t + 1, 1); }
    forall i: nat | i < 16 && i != t % 16
      ensures i < t && Last(t + 1, i) == Last(t, i)
    {
      Unmoved(t, i);
    }
  }

  lemma CircularStart(l: seq<bv32>, raw: seq<bv32>, m: seq<bv32>, t: nat)
    requires |m| == 16 && Circular(l, raw, m, t) && t < 16
    ensures l[t] == raw[t] && Circular(l[t := m[t]], raw, m, t + 1)
  {
    forall i: nat | i < t
      ensures Last(t + 1, i) == i == Last(t, i)
    {}
    assert Last(t + 1, t) == t;
  }

  lemma InPlace(t: nat, back: nat)
    requires 1 <= back <= 16 && back <= t
    ensures (t - back) % 16 == (t + (16 - back)) % 16 && Last(t, (t - back) % 16) == t - back
  {
    var q, i := (t - back) / 16, (t - back) % 16;
    assert t - back == 16 * q + i;
    assert (t - 1 - i) / 16 == q;
  }

  lemma Unmoved(t: nat, i: nat)
    requires t >= 16 && i < 16 && i != t % 16
    ensures Last(t + 1, i) == Last(t, i)
  {
    var q, j := t / 16, t % 16;
    assert t == 16 * q + j;
    if i < j {
      assert (t - i) / 16 == q && (t - 1 - i) / 16 == q;
    } else {
      assert (t - i) / 16 == q - 1 && (t - 1 - i) / 16 == q - 1;
    }
  }

  function RegsOf(s: seq<bv32>): Regs
    requires |s| == 5
  {
    Regs(s[0], s[1], s[2], s[3], s[4])
  }

  /** The words as the machine reads them */
  function RawWords(block: seq<bv8>): (l: seq<bv32>)
    requires |block| == 64
    ensures |l| == 16
  {
    seq(16, i requires 0 <= i < 16 => LittleEndian(block[4 * i], block[4 * i + 1], block[4 * i + 2], block[4 * i + 3]))
  }

  lemma RawSwapped(block: seq<bv8>, t: nat)
    requires |block| == 64 && t < 16
    ensures Swapped(RawWords(block)[t]) == BlockWords(block)[t]
  {
    hide Swapped, LittleEndian, BigEndian;
    SwapIs(block[4 * t], block[4 * t + 1], block[4 * t + 2], block[4 * t + 3]);
  }

  lemma RolesMove(t: nat)
    ensures Role(t + 1, 0) == Role(t, 4) && Role(t + 1, 1) == Role(t, 0) && Role(t + 1, 2) == Role(t, 1)
    ensures Role(t + 1, 3) == Role(t, 2) && Role(t + 1, 4) == Role(t, 3)
    ensures Role(t, 0) != Role(t, 1) && Role(t, 1) != Role(t, 2) && Role(t, 2) != Role(t, 0) && Role(t, 3) != Role(t, 4)
    ensures Role(t, 3) != Role(t, 0) && Role(t, 3) != Role(t, 1) && Role(t, 3) != Role(t, 2)
    ensures Role(t, 4) != Role(t, 0) && Role(t, 4) != Role(t, 1) && Role(t, 4) != Role(t, 2)
  {
    assert (t + 1) % 5 == if t % 5 == 4 then 0 else t % 5 + 1;
  }

  lemma RolesBack()
    ensures forall k :: 0 <= k < 5 ==> Role(80, k) == k
  {}

  /** One of the rounds `R0` to `R4`, in the roles of round `t` */
  lemma RoundInRoles(r: seq<bv32>, t: nat, word: bv32, r': seq<bv32>)
    requires |r| == 5
    requires var v, w, x, y, z := Role(t, 0), Role(t, 1), Role(t, 2), Role(t, 3), Role(t, 4);
      r' == r[z := Add(r[z], Add(Add(Add(FastF(t, r[w], r[x], r[y]), word), K(t)), Rol5(r[v])))][w := Rol30(r[w])]
    ensures InRoles(r', t + 1) == Round(t, InRoles(r, t), word)
  {
    hide Role, Add, Rol1, Rol5, Rol30, FastF, F, K;
    RolesMove(t);
    FastIs(t, r[Role(t, 1)], r[Role(t, 2)], r[Role(t, 3)]);
  }

  /** `Transform` */
  method Transform(state: array<bv32>, block: seq<bv8>)
    requires state.Length == 5 && |block| == 64
    modifies state
    ensures RegsOf(state[..]) == Compress(old(RegsOf(state[..])), BlockWords(block))
  {
    hide Add, Rol1, Rol5, Rol30, Xor, Swapped, FastF, K, W, Rounds, Circular, RawWords, BlockWords, Role, Round;
    ghost var m, h := BlockWords(block), RegsOf(state[..]);
    var l := RawWords(block);
    ghost var raw := l;
    var r := [state[0], state[1], state[2], state[3], state[4]];
    NoRounds(h, m, r, raw);
    for t := 0 to 80
      invariant state[..] == old(state[..])
      invariant |r| == 5 && InRoles(r, t) == Rounds(h, m, t) && Circular(l, raw, m, t) && |l| == 16
    {
      if t < 16 {
        CircularStart(l, raw, m, t);
        RawSwapped(block, t);
        NextRound(h, m, t);
        l := l[t := Swapped(l[t])];
      } else {
        CircularStep(l, raw, m, t);
        NextRound(h, m, t);
        l := l[t % 16 := Rol1(Xor(Xor(Xor(l[(t + 13) % 16], l[(t + 8) % 16]), l[(t + 2) % 16]), l[t % 16]))];
      }
      var v, w, x, y, z := Role(t, 0), Role(t, 1), Role(t, 2), Role(t, 3), Role(t, 4);
      ghost var before := r;
      RolesMove(t);
      r := r[z := Add(r[z], Add(Add(Add(FastF(t, r[w], r[x], r[y]), l[t % 16]), K(t)), Rol5(r[v])))];
      r := r[w := Rol30(r[w])];
      RoundInRoles(before, t, l[t % 16], r);
    }
    RolesBack();
    state[0] := Add(state[0], r[0]);
    state[1] := Add(state[1], r[1]);
    state[2] := Add(state[2], r[2]);
    state[3] := Add(state[3], r[3]);
    state[4] := Add(state[4], r[4]);
  }

  lemma NoRounds(h: Regs, m: seq<bv32>, r: seq<bv32>, raw: seq<bv32>)
    requires |m| == |raw| == 16 && |r| == 5 && h == RegsOf(r)
    ensures InRoles(r, 0) == Rounds(h, m, 0) && Circular(raw, raw, m, 0)
  {}

  lemma NextRound(h: Regs, m: seq<bv32>, t: nat)
    requires |m| == 16
    ensures Rounds(h, m, t + 1) == Round(t, Rounds(h, m, t), W(m, t))
    ensures W(m, t) == if t < 16 then m[t] else Rol1(Xor(Xor(Xor(W(m, t - 3), W(m, t - 8)), W(m, t - 14)), W(m, t - 16)))
  {}

  /** The state of a stream that has taken in `message`: its whole blocks are hashed, the rest is in the buffer,
      and two words count its bits. */
  ghost predicate Streamed(state: seq<bv32>, count0: Word, count1: Word, buffer: seq<bv8>, message: seq<bv8>) {
    && |state| == 5 && |buffer| == 64
    && RegsOf(state) == HashBlocks(Whole(message)) && buffer[..|Rest(message)|] == Rest(message)
    && count0 == 8 * |message| % RANGE && count1 == 8 * |message| / RANGE % RANGE
  }

  function Whole(m: seq<bv8>): (w: seq<bv8>)
    ensures |w| % 64 == 0
  {
    m[..|m| / 64 * 64]
  }

  function Rest(m: seq<bv8>): (r: seq<bv8>)
    ensures |r| == |m| % 64
  {
    m[|m| / 64 * 64..]
  }

  function Zeros(n: nat): (z: seq<bv8>)
    ensures |z| == n
  {
    seq(n, _ => 0)
  }

  /** A byte of a number; bytes count up modulo 256. */
  function ToByte(n: nat): bv8 { if n == 0 then 0 else ToByte(n - 1) + 1 }

  /** The eight bytes of a number of bits, modulo 2^64, the most significant first */
  function LengthBytes(bits: nat): (s: seq<bv8>)
    ensures |s| == 8
  {
    var hi, lo := bits / RANGE % RANGE, bits % RANGE;
    WordBytes(hi) + WordBytes(lo)
  }

  function WordBytes(w: Word): (s: seq<bv8>)
    ensures |s| == 4
  {
    [ToByte(w / 0x100_0000 % 256), ToByte(w / 0x1_0000 % 256), ToByte(w / 0x100 % 256), ToByte(w % 256)]
  }

  /** The padding of section 5.1.1: a one bit, the fewest zeros, and the length in 64 bits, to whole blocks */
  function Padded(m: seq<bv8>): seq<bv8> {
    m + [0x80] + Zeros((119 - |m| % 64) % 64) + LengthBytes(8 * |m|)
  }

  /** The padding fills the last block, and with fewer zeros it would not. */
  lemma PaddedToBlocks(m: seq<bv8>, zeros: nat)
    ensures |Padded(m)| % 64 == 0
    ensures (|m| + 1 + zeros + 8) % 64 == 0 ==> |m| + 1 + zeros + 8 >= |Padded(m)|
  {
    hide LengthBytes, Zeros;
    var q, r := |m| / 64, |m| % 64;
    assert |m| == 64 * q + r;
    Fills(q, r, zeros);
  }

  lemma Fills(q: nat, r: nat, zeros: nat)
    requires r < 64
    ensures (64 * q + r + 1 + (119 - r) % 64 + 8) % 64 == 0
    ensures (64 * q + r + 1 + zeros + 8) % 64 == 0 ==> zeros >= (119 - r) % 64
  {}

  /** The bytes of a hash value */
  function DigestOf(h: Regs): (d: seq<bv8>)
    ensures |d| == 20
  {
    DigestWord(h.a) + DigestWord(h.b) + DigestWord(h.c) + DigestWord(h.d) + DigestWord(h.e)
  }

  function DigestWord(w: bv32): (d: seq<bv8>)
    ensures |d| == 4
  {
    [LowByte(w >> 24), LowByte(w >> 16), LowByte(w >> 8), LowByte(w)]
  }

  function LowByte(w: bv32): bv8 { (w & 255) as bv8 }

  /** SHA-1 of a message */
  function Sha1Of(m: seq<bv8>): (d: seq<bv8>)
    ensures |d| == 20
  {
    PaddedToBlocks(m, 0);
    DigestOf(HashBlocks(Padded(m)))
  }

  class Sha1 {
    const state: array<bv32>
    const buffer: array<bv8>
    var count0: Word
    var count1: Word
    ghost var message: seq<bv8>

    ghost predicate Valid()
      reads this, state, buffer
    {
      state.Length == 5 && buffer.Length == 64 && Streamed(state[..], count0, count1, buffer[..], message)
    }

    /** The constructor, with `Init` */
    constructor ()
      ensures Valid() && message == [] && fresh(state) && fresh(buffer)
    {
      state, buffer := new bv32[5], new bv8[64];
      count0, count1, message := 0, 0, [];
      new;
      state[0], state[1], state[2], state[3], state[4] := 0x67452301, 0xEFCDAB89, 0x98BADCFE, 0x10325476, 0xC3D2E1F0;
    }

    /** `memcpy` into the buffer */
    method CopyIn(j: nat, data: seq<bv8>)
      requires buffer.Length == 64 && j + |data| <= 64
      modifies buffer
      ensures buffer[..] == old(buffer[..j]) + data + old(buffer[j + |data|..])
    {
      forall k | j <= k < j + |data| {
        buffer[k] := data[k - j];
      }
    }

    /** The two words of the count, the second with the carry */
    method CountBits(n: nat)
      requires n < RANGE && count0 == 8 * |message| % RANGE && count1 == 8 * |message| / RANGE % RANGE
      modifies this`count0, this`count1
      ensures count0 == 8 * (|message| + n) % RANGE && count1 == 8 * (|message| + n) / RANGE % RANGE
    {
      AddBits(|message|, n);
      var bits := n * 8 % RANGE;
      count0 := (count0 + bits) % RANGE;
      if count0 < bits {
        count1 := (count1 + 1) % RANGE;
      }
      count1 := (count1 + n / 0x2000_0000) % RANGE;
    }

    /** `Update`: afterwards the stream has taken in the piece as well. */
    method Update(data: seq<bv8>)
      requires Valid() && |data| <= MAX_PIECE
      modifies this, state, buffer
      ensures Valid() && message == old(message) + data
    {
      hide HashBlocks, Compress, BlockWords, Whole, Rest, HashTo, RegsOf, Streamed;
      ghost var full, was := message + data, buffer[..];
      Opened(state[..], count0, count1, buffer[..], message);
      var j := count0 / 8 % 64;
      CountBits(|data|);
      var i := 0;
      if j + |data| > 63 {
        i := 64 - j;
        CopyIn(j, data[..i]);
        assert buffer[..] == Rest(message) + data[..i];
        FirstBlock(message, data, i);
        Transform(state, buffer[..]);
        assert RegsOf(state[..]) == HashTo(message + data, |message| + i);
        i := HashWholeBlocks(data, i);
        j := 0;
        Remaining(message, data, i);
        CopyIn(0, data[i..]);
        assert buffer[..|data| - i] == data[i..];
      } else {
        AllBuffered(message, data);
        CopyIn(j, data);
        assert buffer[..j + |data|] == was[..j] + data;
      }
      Closed(state[..], count0, count1, buffer[..], full);
      message := full;
    }

    /** The blocks that lie whole in the piece */
    method HashWholeBlocks(data: seq<bv8>, start: nat) returns (i: nat)
      requires state.Length == 5 && start <= |data| && (|message| + start) % 64 == 0
      requires RegsOf(state[..]) == HashTo(message + data, |message| + start)
      modifies state
      ensures start <= i <= |data| <= i + 63 && (|message| + i) % 64 == 0
      ensures RegsOf(state[..]) == HashTo(message + data, |message| + i)
    {
      hide HashTo, Compress, BlockWords, RegsOf;
      i := start;
      while i + 63 < |data|
        invariant start <= i <= |data| && (|message| + i) % 64 == 0
        invariant RegsOf(state[..]) == HashTo(message + data, |message| + i)
      {
        NextBlock(message, data, i);
        Transform(state, data[i..i + 64]);
        i := i + 64;
      }
    }

    /** `Final`: the padding goes through `Update`, and the stream is wiped out. */
    method Final() returns (digest: seq<bv8>)
      requires Valid()
      modifies this, state, buffer
      ensures digest == Sha1Of(old(message))
    {
      hide HashBlocks, DigestOf, Whole, Rest, Padded, LengthBytes, Streamed, WordBytes, Zeros, RegsOf;
      ghost var m := message;
      Opened(state[..], count0, count1, buffer[..], m);
      var finalcount := WordBytes(count1) + WordBytes(count0);
      LengthIs(m);
      Update([0x80]);
      ghost var k := 0;
      NoZeros(m + [0x80]);
      Opened(state[..], count0, count1, buffer[..], message);
      while count0 / 8 % 64 != 56
        invariant Valid() && message == m + [0x80] + Zeros(k) && 0 <= k <= (119 - |m| % 64) % 64
        invariant count0 / 8 % 64 == |message| % 64
        decreases (119 - |m| % 64) % 64 - k
      {
        MoreZeros(|m|, k);
        OneMoreZero(m + [0x80], k);
        Update([0]);
        k := k + 1;
        Opened(state[..], count0, count1, buffer[..], message);
      }
      EnoughZeros(|m|, k);
      Update(finalcount);
      PaddedIs(m);
      Opened(state[..], count0, count1, buffer[..], message);
      digest := DigestOf(RegsOf(state[..]));
      forall i | 0 <= i < 64 {
        buffer[i] := 0;
      }
      forall i | 0 <= i < 5 {
        state[i] := 0;
      }
      count0, count1 := 0, 0;
    }
  }

  lemma Opened(state: seq<bv32>, count0: Word, count1: Word, buffer: seq<bv8>, m: seq<bv8>)
    requires Streamed(state, count0, count1, buffer, m)
    ensures |state| == 5 && |buffer| == 64 && RegsOf(state) == HashBlocks(Whole(m)) && buffer[..|m| % 64] == Rest(m)
    ensures count0 == 8 * |m| % RANGE && count1 == 8 * |m| / RANGE % RANGE && count0 / 8 % 64 == |m| % 64
  {
    hide HashBlocks;
    BufferPlace(|m|);
  }

  lemma Closed(state: seq<bv32>, count0: Word, count1: Word, buffer: seq<bv8>, m: seq<bv8>)
    requires |state| == 5 && |buffer| == 64 && RegsOf(state) == HashBlocks(Whole(m)) && buffer[..|Rest(m)|] == Rest(m)
    requires count0 == 8 * |m| % RANGE && count1 == 8 * |m| / RANGE % RANGE
    ensures Streamed(state, count0, count1, buffer, m)
  {}

  /** The hash value of the first `n` bytes, which are whole blocks */
  ghost function HashTo(m: seq<bv8>, n: nat): Regs
    requires n <= |m| && n % 64 == 0
  {
    HashBlocks(m[..n])
  }

  lemma DivMod(x: int, q: int, r: int)
    requires x == RANGE * q + r && 0 <= r < RANGE
    ensures x / RANGE == q && x % RANGE == r
  {}

  lemma BufferPlace(n: nat)
    ensures 8 * n % RANGE / 8 % 64 == n % 64
  {
    var q := n / 0x2000_0000;
    var r := n % 0x2000_0000;
    assert n == 0x2000_0000 * q + r;
    DivMod(8 * n, q, 8 * r);
    assert 8 * r / 8 == r;
    Mod64(n, 0x80_0000 * q, r);
  }

  lemma Mod64(n: nat, q: nat, r: nat)
    requires n == 64 * q + r
    ensures n % 64 == r % 64
  {
    assert r == 64 * (r / 64) + r % 64;
  }

  /** The two words count on, with the carry. */
  lemma AddBits(n: nat, k: nat)
    requires k < RANGE
    ensures
      var c0, c1, bits := 8 * n % RANGE, 8 * n / RANGE % RANGE, k * 8 % RANGE;
      var c0' := (c0 + bits) % RANGE;
      var c1' := if c0' < bits then (c1 + 1) % RANGE else c1;
      c0' == 8 * (n + k) % RANGE && (c1' + k / 0x2000_0000) % RANGE == 8 * (n + k) / RANGE % RANGE
  {
    var a, c0, b, bits := 8 * n / RANGE, 8 * n % RANGE, k / 0x2000_0000, k * 8 % RANGE;
    assert 8 * n == RANGE * a + c0;
    assert k == 0x2000_0000 * b + k % 0x2000_0000;
    DivMod(k * 8, b, 8 * (k % 0x2000_0000));
    assert 8 * (n + k) == RANGE * (a + b) + (c0 + bits);
    if c0 + bits < RANGE {
      DivMod(8 * (n + k), a + b, c0 + bits);
      DivMod(c0 + bits, 0, c0 + bits);
      ModAdds(a, b);
    } else {
      DivMod(8 * (n + k), a + b + 1, c0 + bits - RANGE);
      DivMod(c0 + bits, 1, c0 + bits - RANGE);
      ModAdds(a, 1);
      ModAdds(a + 1, b);
    }
  }

  lemma ModAdds(x: nat, y: nat)
    ensures (x % RANGE + y) % RANGE == (x + y) % RANGE
  {
    var q := x / RANGE;
    var z := x % RANGE + y;
    assert x + y == RANGE * q + z;
    DivMod(x + y, q + z / RANGE, z % RANGE);
  }

  lemma BlockAdded(m: seq<bv8>, n: nat, block: seq<bv8>)
    requires n % 64 == 0 && n + 64 <= |m| && block == m[n..n + 64]
    ensures (n + 64) % 64 == 0 && HashTo(m, n + 64) == Compress(HashTo(m, n), BlockWords(block))
  {
    hide Compress, BlockWords;
    var w := m[..n + 64];
    assert w[..|w| - 64] == m[..n] && w[|w| - 64..] == block;
  }

  lemma FirstBlock(m: seq<bv8>, data: seq<bv8>, i: nat)
    requires |m| % 64 + |data| > 63 && i == 64 - |m| % 64
    ensures (|m| + i) % 64 == 0 && i <= |data|
    ensures HashTo(m + data, |m| + i) == Compress(HashBlocks(Whole(m)), BlockWords(Rest(m) + data[..i]))
  {
    hide Compress, BlockWords, HashBlocks;
    var n := |m| / 64 * 64;
    assert |m| + i == n + 64;
    assert (m + data)[n..n + 64] == Rest(m) + data[..i];
    assert (m + data)[..n] == Whole(m);
    BlockAdded(m + data, n, Rest(m) + data[..i]);
  }

  lemma NextBlock(m: seq<bv8>, data: seq<bv8>, i: nat)
    requires (|m| + i) % 64 == 0 && i + 64 <= |data|
    ensures (|m| + i + 64) % 64 == 0
    ensures HashTo(m + data, |m| + i + 64) == Compress(HashTo(m + data, |m| + i), BlockWords(data[i..i + 64]))
  {
    hide Compress, BlockWords, HashTo;
    assert (m + data)[|m| + i..|m| + i + 64] == data[i..i + 64];
    BlockAdded(m + data, |m| + i, data[i..i + 64]);
  }

  lemma Remaining(m: seq<bv8>, data: seq<bv8>, i: nat)
    requires (|m| + i) % 64 == 0 && i <= |data| <= i + 63
    ensures HashBlocks(Whole(m + data)) == HashTo(m + data, |m| + i) && Rest(m + data) == data[i..]
  {
    var n := |m| + i;
    var full := m + data;
    assert |full| / 64 * 64 == n;
  }

  lemma AllBuffered(m: seq<bv8>, data: seq<bv8>)
    requires |m| % 64 + |data| <= 63
    ensures Whole(m + data) == Whole(m) && Rest(m + data) == Rest(m) + data
  {
    assert |m + data| / 64 == |m| / 64;
  }

  /** `Hash` */
  method Hash(block: seq<bv8>) returns (digest: seq<bv8>)
    requires |block| <= MAX_PIECE
    ensures digest == Sha1Of(block)
  {
    hide Streamed, Sha1Of;
    var sha1 := new Sha1();
    sha1.Update(block);
    assert sha1.message == block;
    digest := sha1.Final();
  }

  function Joined(pieces: seq<seq<bv8>>): seq<bv8> {
    if pieces == [] then [] else pieces[0] + Joined(pieces[1..])
  }

  /** However a message is split into pieces, the digest is that of the message. */
  method HashPieces(pieces: seq<seq<bv8>>) returns (digest: seq<bv8>)
    requires forall i :: 0 <= i < |pieces| ==> |pieces[i]| <= MAX_PIECE
    ensures digest == Sha1Of(Joined(pieces))
  {
    hide Streamed, Sha1Of;
    var sha1 := new Sha1();
    for i := 0 to |pieces|
      invariant sha1.Valid() && fresh(sha1) && fresh(sha1.state) && fresh(sha1.buffer)
      invariant sha1.message + Joined(pieces[i..]) == Joined(pieces)
    {
      assert pieces[i..][1..] == pieces[i + 1..];
      sha1.Update(pieces[i]);
    }
    assert sha1.message == Joined(pieces);
    digest := sha1.Final();
  }

  lemma NoZeros(m: seq<bv8>)
    ensures m == m + Zeros(0)
  {}

  lemma OneMoreZero(m: seq<bv8>, k: nat)
    ensures m + Zeros(k + 1) == m + Zeros(k) + [0]
  {}

  lemma LengthIs(m: seq<bv8>)
    ensures WordBytes(8 * |m| / RANGE % RANGE) + WordBytes(8 * |m| % RANGE) == LengthBytes(8 * |m|)
  {}

  lemma MoreZeros(n: nat, k: nat)
    requires k <= (119 - n % 64) % 64 && (n + 1 + k) % 64 != 56
    ensures k < (119 - n % 64) % 64
  {
    Fewest(n / 64, n % 64, k);
  }

  lemma EnoughZeros(n: nat, k: nat)
    requires k <= (119 - n % 64) % 64 && (n + 1 + k) % 64 == 56
    ensures k == (119 - n % 64) % 64
  {
    Fewest(n / 64, n % 64, k);
  }

  lemma Fewest(q: nat, r: nat, k: nat)
    requires r < 64 && k <= (119 - r) % 64
    ensures (64 * q + r + 1 + k) % 64 == 56 <==> k == (119 - r) % 64
  {}

  /** The padded message is whole blocks. */
  lemma PaddedIs(m: seq<bv8>)
    ensures Padded(m) == m + [0x80] + Zeros((119 - |m| % 64) % 64) + LengthBytes(8 * |m|)
    ensures |Padded(m)| % 64 == 0 && Whole(Padded(m)) == Padded(m)
  {
    PaddedToBlocks(m, 0);
    assert Padded(m)[..|Padded(m)|] == Padded(m);
  }

  lemma NextByte(b: bv8)
    requires b < 255
    ensures (b + 1) as int == b as int + 1
  {}

  lemma Full(b: bv8)
    ensures b as int < 255 ==> b < 255
  {}

  lemma {:induction false} ToByteIs(n: nat)
    requires n < 256
    ensures ToByte(n) as int == n
  {
    if n > 0 {
      ToByteIs(n - 1);
      Full(ToByte(n - 1));
      NextByte(ToByte(n - 1));
    }
  }

  lemma WordBytesDiffer(v: Word, w: Word)
    requires WordBytes(v) == WordBytes(w)
    ensures v == w
  {
    hide ToByte;
    Quarters(v);
    Quarters(w);
    assert WordBytes(v)[0] == WordBytes(w)[0] && WordBytes(v)[1] == WordBytes(w)[1];
    assert WordBytes(v)[2] == WordBytes(w)[2] && WordBytes(v)[3] == WordBytes(w)[3];
    ToByteIs(v / 0x100_0000 % 256); ToByteIs(v / 0x1_0000 % 256); ToByteIs(v / 0x100 % 256); ToByteIs(v % 256);
    ToByteIs(w / 0x100_0000 % 256); ToByteIs(w / 0x1_0000 % 256); ToByteIs(w / 0x100 % 256); ToByteIs(w % 256);
  }

  lemma Quarters(w: Word)
    ensures w == w / 0x100_0000 % 256 * 0x100_0000 + w / 0x1_0000 % 256 * 0x1_0000 + w / 0x100 % 256 * 0x100 + w % 256
  {
    var q1 := w / 0x100;
    var q2 := q1 / 0x100;
    assert w / 0x1_0000 == q2 && w / 0x100_0000 == q2 / 0x100;
    assert w == 0x100 * q1 + w % 256 && q1 == 0x100 * q2 + q1 % 256 && q2 == 0x100 * (q2 / 0x100) + q2 % 256;
  }

  /** Padding loses nothing: messages shorter than 2^64 bits are equal when they are padded to the same blocks. */
  lemma PaddingIsInjective(m: seq<bv8>, n: seq<bv8>)
    requires 8 * |m| < RANGE * RANGE && 8 * |n| < RANGE * RANGE && Padded(m) == Padded(n)
    ensures m == n
  {
    hide ToByte, WordBytes;
    var p := Padded(m);
    assert p[|p| - 8..] == LengthBytes(8 * |m|) && p[|p| - 8..] == LengthBytes(8 * |n|);
    LengthsDiffer(8 * |m|, 8 * |n|);
    assert p[..|m|] == m && p[..|n|] == n;
  }

  lemma LengthsDiffer(x: nat, y: nat)
    requires x < RANGE * RANGE && y < RANGE * RANGE && LengthBytes(x) == LengthBytes(y)
    ensures x == y
  {
    hide WordBytes;
    assert x / RANGE < RANGE && y / RANGE < RANGE;
    assert LengthBytes(x)[..4] == WordBytes(x / RANGE) && LengthBytes(x)[4..] == WordBytes(x % RANGE);
    assert LengthBytes(y)[..4] == WordBytes(y / RANGE) && LengthBytes(y)[4..] == WordBytes(y % RANGE);
    WordBytesDiffer(x / RANGE, y / RANGE);
    WordBytesDiffer(x % RANGE, y % RANGE);
    assert x == RANGE * (x / RANGE) + x % RANGE && y == RANGE * (y / RANGE) + y % RANGE;
  }
}
