/** The integer helpers that littlefs is configured with, in their portable form. */
module BitTricks {

  // ---------------------------------------------------------------------------
  // Alignment of 32-bit sizes
  // ---------------------------------------------------------------------------

  const WORD: int := 0x1_0000_0000

  function AlignDown(a: int, alignment: int): int
    requires 0 <= a < WORD && 0 < alignment < WORD
  {
    a - a % alignment
  }

  /** lfs_alignup, with the sum taken modulo 2^32. */
  function AlignUp(a: int, alignment: int): int
    requires 0 <= a < WORD && 0 < alignment < WORD
  {
    AlignDown((a + alignment - 1) % WORD, alignment)
  }

  predicate IsMultiple(n: int, d: int)
    requires d > 0
  {
    n % d == 0
  }

  /** `r` is the least multiple of `d` that is not below `a`. */
  predicate LeastMultipleFrom(r: int, a: int, d: int)
    requires d > 0
  {
    a <= r < a + d && IsMultiple(r, d)
  }

  lemma MultipleGap(m: int, n: int, d: int)
    requires d > 0 && IsMultiple(m, d) && IsMultiple(n, d) && m < n
    ensures m + d <= n
  {
    var p, q := m / d, n / d;
    assert m == p * d && n == q * d;
    assert q <= p ==> q * d <= p * d;
    assert (p + 1) * d <= q * d;
  }

  /** The range form says what its name says. */
  lemma LeastMultiple(r: int, a: int, d: int, other: int)
    requires d > 0 && LeastMultipleFrom(r, a, d) && IsMultiple(other, d) && a <= other
    ensures r <= other
  {
    if other < r {
      MultipleGap(other, r, d);
    }
  }

  /** lfs_aligndown gives the greatest multiple not above `a`. */
  lemma AlignDownIs(a: int, d: int)
    requires 0 <= a < WORD && 0 < d < WORD
    ensures AlignDown(a, d) <= a < AlignDown(a, d) + d && IsMultiple(AlignDown(a, d), d)
  {
    var q := a / d;
    assert a == q * d + a % d;
    MultipleOfFactor(q, d);
  }

  lemma MultipleOfFactor(q: int, d: int)
    requires d > 0
    ensures (q * d) % d == 0
  {
    var n := q * d;
    var e := n / d;
    assert n == e * d + n % d;
    assert (q - e) * d == n % d;
    assert q - e >= 1 ==> (q - e) * d >= d;
    assert q - e <= -1 ==> (q - e) * d <= -d;
  }

  /** lfs_alignup gives the least multiple not below `a` exactly when the sum inside does
      not wrap around; otherwise its result is below `a`. */
  lemma AlignUpIs(a: int, d: int)
    requires 0 <= a < WORD && 0 < d < WORD
    ensures LeastMultipleFrom(AlignUp(a, d), a, d) <==> a + d - 1 < WORD
  {
    var s := (a + d - 1) % WORD;
    AlignDownIs(s, d);
    if a + d - 1 >= WORD {
      assert s == a + d - 1 - WORD;
    }
  }

  // ---------------------------------------------------------------------------
  // Powers of two
  // ---------------------------------------------------------------------------

  function Pow2(k: bv32): bv32
    requires k < 32
  {
    1 << (k as bv6)
  }

  /** lfs_npw2: the exponent of the least power of two not below `a`, except that 0 and 1
      give 32 and 1. */
  method Npw2(a: bv32) returns (r: bv32)
    ensures a >= 2 ==> 1 <= r <= 32 && Pow2(r - 1) < a && (r < 32 ==> a <= Pow2(r))
    ensures a == 1 ==> r == 1
    ensures a == 0 ==> r == 32
  {
    var x := a - 1;
    r := 0;
    var s: bv32 := if x > 0xffff then 16 else 0;
    x := x >> (s as bv6);
    r := r | s;
    s := if x > 0xff then 8 else 0;
    x := x >> (s as bv6);
    r := r | s;
    s := if x > 0xf then 4 else 0;
    x := x >> (s as bv6);
    r := r | s;
    s := if x > 0x3 then 2 else 0;
    x := x >> (s as bv6);
    r := r | s;
    r := (r | (x >> 1)) + 1;
  }

  /** lfs_ctz: bit `r` is set and all bits below it are clear. */
  method Ctz(a: bv32) returns (r: bv32)
    ensures a != 0 ==> r < 32 && a & Pow2(r) != 0 && a & (Pow2(r) - 1) == 0
    ensures a == 0 ==> r == 0
  {
    r := Npw2((a & (0 - a)) + 1);
    r := r - 1;
  }

  // ---------------------------------------------------------------------------
  // Population count
  // ---------------------------------------------------------------------------

  function Plus(a: bv32, b: bv32): bv32 {
    a + b
  }

  function LowBit(a: bv32): bv32 {
    a & 1
  }

  function Half(a: bv32): bv32 {
    a >> 1
  }

  /** The number of ones among the low `n` bits. */
  function BitCount(a: bv32, n: nat): bv32
    decreases n
  {
    if n == 0 then 0 else Plus(LowBit(a), BitCount(Half(a), n - 1))
  }

  /** The ones of the lowest byte. */
  function ByteCount(x: bv32): bv32 {
    Plus(LowBit(x), Plus(LowBit(x >> 1), Plus(LowBit(x >> 2), Plus(LowBit(x >> 3),
    Plus(LowBit(x >> 4), Plus(LowBit(x >> 5), Plus(LowBit(x >> 6), LowBit(x >> 7))))))))
  }

  // The steps of lfs_popc: ones per pair of bits, per nibble and per byte, then their sum.

  function PairCounts(a: bv32): bv32 {
    a - ((a >> 1) & 0x55555555)
  }

  function NibbleCounts(a: bv32): bv32 {
    (a & 0x33333333) + ((a >> 2) & 0x33333333)
  }

  function ByteCounts(a: bv32): bv32 {
    (a + (a >> 4)) & 0xf0f0f0f
  }

  function SumBytes(a: bv32): bv32 {
    (a * 0x1010101) >> 24
  }

  function Folded(a: bv32): bv32 {
    ByteCounts(NibbleCounts(PairCounts(a)))
  }

  function LowByte(a: bv32): bv32 {
    a & 0xff
  }

  function NextByte(a: bv32): bv32 {
    a >> 8
  }

  lemma ByteCountAtMost8(x: bv32)
    ensures ByteCount(x) <= 8
  {
  }

  lemma FoldedByte0(a: bv32)
    ensures LowByte(Folded(a)) == ByteCount(a)
  {
  }

  lemma FoldedByte1(a: bv32)
    ensures LowByte(NextByte(Folded(a))) == ByteCount(NextByte(a))
  {
  }

  lemma FoldedByte2(a: bv32)
    ensures LowByte(NextByte(NextByte(Folded(a)))) == ByteCount(NextByte(NextByte(a)))
  {
  }

  lemma FoldedByte3(a: bv32)
    ensures LowByte(NextByte(NextByte(NextByte(Folded(a))))) == ByteCount(NextByte(NextByte(NextByte(a))))
  {
  }

  function Bytes(x0: bv32, x1: bv32, x2: bv32, x3: bv32): bv32 {
    x0 | (x1 << 8) | (x2 << 16) | (x3 << 24)
  }

  lemma BytesOf(d: bv32)
    requires d & 0xf0f0f0f == d
    ensures d == Bytes(LowByte(d), LowByte(NextByte(d)), LowByte(NextByte(NextByte(d))), LowByte(NextByte(NextByte(NextByte(d)))))
  {
  }

  lemma SumOfBytes(x0: bv32, x1: bv32, x2: bv32, x3: bv32)
    requires x0 <= 8 && x1 <= 8 && x2 <= 8 && x3 <= 8
    ensures SumBytes(Bytes(x0, x1, x2, x3)) == Plus(x0, Plus(x1, Plus(x2, x3)))
  {
  }

  lemma PlusAssociative(a: bv32, b: bv32, c: bv32)
    ensures Plus(a, Plus(b, c)) == Plus(Plus(a, b), c) && Plus(a, 0) == a && Plus(0, a) == a
  {
  }

  function Down(a: bv32, m: nat): bv32
    decreases m
  {
    if m == 0 then a else Down(Half(a), m - 1)
  }

  lemma {:induction false} CountSplit(a: bv32, m: nat, n: nat)
    ensures BitCount(a, m + n) == Plus(BitCount(a, m), BitCount(Down(a, m), n))
    decreases m
  {
    hide Plus, LowBit, Half;
    if m == 0 {
      PlusAssociative(BitCount(a, n), 0, 0);
    } else {
      CountSplit(Half(a), m - 1, n);
      PlusAssociative(LowBit(a), BitCount(Half(a), m - 1), BitCount(Down(a, m), n));
    }
  }

  lemma HalfOfShift(a: bv32)
    ensures Half(a) == a >> 1 && Half(a >> 1) == a >> 2 && Half(a >> 2) == a >> 3 && Half(a >> 3) == a >> 4
    ensures Half(a >> 4) == a >> 5 && Half(a >> 5) == a >> 6 && Half(a >> 6) == a >> 7 && Half(a >> 7) == a >> 8
  {
  }

  lemma CountFour(a: bv32, b: bv32, c: bv32, d: bv32, e: bv32, n: nat)
    requires b == Half(a) && c == Half(b) && d == Half(c) && e == Half(d)
    ensures BitCount(a, n + 4) == Plus(LowBit(a), Plus(LowBit(b), Plus(LowBit(c), Plus(LowBit(d), BitCount(e, n)))))
    ensures Down(a, n + 4) == Down(e, n)
  {
    hide Plus, LowBit, Half;
    assert BitCount(a, n + 4) == Plus(LowBit(a), BitCount(b, n + 3));
    assert BitCount(b, n + 3) == Plus(LowBit(b), BitCount(c, n + 2));
    assert BitCount(c, n + 2) == Plus(LowBit(c), BitCount(d, n + 1));
    assert Down(a, n + 4) == Down(b, n + 3);
    assert Down(b, n + 3) == Down(c, n + 2);
    assert Down(c, n + 2) == Down(d, n + 1);
  }

  lemma CountByte(a: bv32)
    ensures BitCount(a, 8) == ByteCount(a) && Down(a, 8) == NextByte(a)
  {
    HalfOfShift(a);
    hide Plus, LowBit, Half;
    CountFour(a, a >> 1, a >> 2, a >> 3, a >> 4, 4);
    CountFour(a >> 4, a >> 5, a >> 6, a >> 7, a >> 8, 0);
    CountNone(a >> 8);
    PlusAssociative(LowBit(a >> 7), 0, 0);
  }

  lemma CountNone(a: bv32)
    ensures BitCount(a, 0) == 0 && Down(a, 0) == a
  {
  }

  lemma CountBytes(a: bv32, b: bv32, c: bv32, d: bv32)
    requires b == NextByte(a) && c == NextByte(b) && d == NextByte(c)
    ensures BitCount(a, 32) == Plus(ByteCount(a), Plus(ByteCount(b), Plus(ByteCount(c), ByteCount(d))))
  {
    hide ByteCount, BitCount, Plus, Down, NextByte;
    CountByte(a);
    CountSplit(a, 8, 24);
    CountByte(b);
    CountSplit(b, 8, 16);
    CountByte(c);
    CountSplit(c, 8, 8);
    CountByte(d);
  }

  lemma FoldedMask(a: bv32)
    ensures Folded(a) & 0xf0f0f0f == Folded(a)
  {
  }

  lemma PopcIs(a: bv32)
    ensures SumBytes(Folded(a)) == BitCount(a, 32)
  {
    hide Folded, SumBytes, ByteCount, BitCount, Plus, LowByte, NextByte, Bytes;
    FoldedMask(a);
    BytesOf(Folded(a));
    FoldedByte0(a);
    FoldedByte1(a);
    FoldedByte2(a);
    FoldedByte3(a);
    var b := NextByte(a);
    var c := NextByte(b);
    var d := NextByte(c);
    ByteCountAtMost8(a);
    ByteCountAtMost8(b);
    ByteCountAtMost8(c);
    ByteCountAtMost8(d);
    SumOfBytes(ByteCount(a), ByteCount(b), ByteCount(c), ByteCount(d));
    CountBytes(a, b, c, d);
  }

  /** lfs_popc counts the ones of the word. */
  method Popc(a: bv32) returns (r: bv32)
    ensures r == BitCount(a, 32)
  {
    hide BitCount, PairCounts, NibbleCounts, ByteCounts, SumBytes;
    var x := a;
    x := PairCounts(x);
    x := NibbleCounts(x);
    r := SumBytes(ByteCounts(x));
    PopcIs(a);
  }
}
