/** The CRC-32 that littlefs stores with every block: the nibble-table loop of
    `lfs_crc`, the bit-at-a-time CRC it must compute, and what that CRC detects. */
module LfsCrc {

  /** Bit-reversal of the CRC-32 generator 0x04c11db7 (the x^32 term is implicit). */
  const POLY: bv32 := 0xedb88320

  // ---------------------------------------------------------------------------
  // Reference definition: a shift register fed one bit at a time
  // ---------------------------------------------------------------------------

  /** Addition of polynomials over GF(2). */
  function Add(c: bv32, d: bv32): bv32 {
    c ^ d
  }

  function Half(c: bv32): bv32 {
    c >> 1
  }

  predicate Odd(c: bv32) {
    c & 1 == 1
  }

  /** One step of the reflected shift register. */
  function Shift(c: bv32): bv32 {
    if Odd(c) then Add(Half(c), POLY) else Half(c)
  }

  function BitWord(b: bool): bv32 {
    if b then 1 else 0
  }

  /** The register after the bits `bits`, in order, have been fed to `c`. */
  function CrcBits(c: bv32, bits: seq<bool>): bv32
    decreases |bits|
  {
    if bits == [] then c else CrcBits(Shift(Add(c, BitWord(bits[0]))), bits[1..])
  }

  predicate HasBit(b: bv8, m: bv8) {
    b & m == m
  }

  /** The bits of a byte, least significant first, as a reflected CRC takes them. */
  function ByteBits(b: bv8): (bits: seq<bool>)
    ensures |bits| == 8
  {
    [HasBit(b, 1), HasBit(b, 2), HasBit(b, 4), HasBit(b, 8),
     HasBit(b, 16), HasBit(b, 32), HasBit(b, 64), HasBit(b, 128)]
  }

  function Bits(data: seq<bv8>): (bits: seq<bool>)
    ensures |bits| == 8 * |data|
  {
    if data == [] then [] else ByteBits(data[0]) + Bits(data[1..])
  }

  // ---------------------------------------------------------------------------
  // The register as a linear, invertible map
  // ---------------------------------------------------------------------------

  lemma AddAssociative(a: bv32, b: bv32, c: bv32)
    ensures Add(Add(a, b), c) == Add(a, Add(b, c))
  {
    assert (a ^ b) ^ c == a ^ (b ^ c);
  }

  lemma AddCommutative(a: bv32, b: bv32)
    ensures Add(a, b) == Add(b, a)
  {
  }

  lemma AddZero(a: bv32)
    ensures Add(a, 0) == a && Add(0, a) == a
  {
  }

  lemma AddCancels(a: bv32, b: bv32, c: bv32)
    ensures Add(c, a) == Add(c, b) <==> a == b
  {
    assert c ^ (c ^ a) == a;
    assert c ^ (c ^ b) == b;
  }

  lemma OddSum(c: bv32, d: bv32)
    ensures Odd(Add(c, d)) == (Odd(c) != Odd(d))
  {
  }

  lemma HalfLinear(c: bv32, d: bv32)
    ensures Half(Add(c, d)) == Add(Half(c), Half(d))
  {
  }

  lemma ShiftLinear(c: bv32, d: bv32)
    ensures Shift(Add(c, d)) == Add(Shift(c), Shift(d))
  {
    hide Add, Half, Odd;
    OddSum(c, d);
    HalfLinear(c, d);
    AddAssociative(Half(c), Half(d), POLY);
    AddAssociative(Half(c), POLY, Half(d));
    AddCommutative(POLY, Half(d));
    AddTwice(Half(c), Half(d), POLY);
  }

  lemma AddTwice(x: bv32, y: bv32, k: bv32)
    ensures Add(Add(x, k), Add(y, k)) == Add(x, y)
  {
    assert (x ^ k) ^ (y ^ k) == x ^ y;
  }

  lemma ShiftInjective(c: bv32, d: bv32)
    ensures Shift(c) == Shift(d) <==> c == d
  {
  }

  function ShiftN(c: bv32, n: nat): bv32
    decreases n
  {
    if n == 0 then c else ShiftN(Shift(c), n - 1)
  }

  lemma {:induction false} ShiftNInjective(c: bv32, d: bv32, n: nat)
    ensures ShiftN(c, n) == ShiftN(d, n) <==> c == d
    decreases n
  {
    hide Shift;
    if n > 0 {
      ShiftInjective(c, d);
      ShiftNInjective(Shift(c), Shift(d), n - 1);
    }
  }

  // ---------------------------------------------------------------------------
  // Up to 32 bits at once
  // ---------------------------------------------------------------------------

  function Double(c: bv32): bv32 {
    c << 1
  }

  function Meet(a: bv32, b: bv32): bv32 {
    a & b
  }

  predicate TopClear(c: bv32) {
    Meet(c, 0x80000000) == 0
  }

  /** The bits packed into a word, the first bit lowest. */
  function Pack(bits: seq<bool>): bv32 {
    if bits == [] then 0 else Add(BitWord(bits[0]), Double(Pack(bits[1..])))
  }

  /** The positions from `n` up. */
  function Above(n: nat): bv32 {
    if n == 0 then 0xffffffff else Double(Above(n - 1))
  }

  lemma AboveBy4(n: nat, v: bv32)
    requires Above(n) == v
    ensures Above(n + 4) == v << 4
  {
    assert Above(n + 1) == v << 1;
    assert Above(n + 2) == v << 2;
    assert Above(n + 3) == v << 3;
  }

  lemma Above31()
    ensures Above(31) == 0x80000000
  {
    AboveBy4(0, 0xffffffff);
    AboveBy4(4, 0xfffffff0);
    AboveBy4(8, 0xffffff00);
    AboveBy4(12, 0xfffff000);
    AboveBy4(16, 0xffff0000);
    AboveBy4(20, 0xfff00000);
    AboveBy4(24, 0xff000000);
    assert Above(29) == 0xe0000000;
    assert Above(30) == 0xc0000000;
  }

  /** `Above(n)` holds the top position as long as `n` is at most 31. */
  lemma {:induction false} AboveTop(n: nat)
    requires n <= 31
    ensures Meet(Above(n), 0x80000000) == 0x80000000
    decreases 31 - n
  {
    if n == 31 {
      Above31();
    } else {
      hide Above, Meet;
      AboveTop(n + 1);
      AboveShrinks(n);
      MeetGrows(Above(n + 1), Above(n), 0x80000000);
    }
  }

  lemma MeetGrows(a: bv32, b: bv32, t: bv32)
    requires Meet(a, t) == t && Meet(a, b) == a
    ensures Meet(b, t) == t
  {
  }

  lemma {:induction false} AboveShrinks(n: nat)
    ensures Meet(Above(n + 1), Above(n)) == Above(n + 1)
  {
    if n > 0 {
      hide Meet, Double;
      AboveShrinks(n - 1);
      DoubleOfMeet(Above(n), Above(n - 1));
    }
  }

  lemma DoubleOfMeet(a: bv32, b: bv32)
    ensures Meet(Double(a), Double(b)) == Double(Meet(a, b))
  {
  }

  lemma {:induction false} PackFits(bits: seq<bool>)
    ensures Meet(Pack(bits), Above(|bits|)) == 0
  {
    if bits == [] {
      MeetZero(Above(0));
    }
    hide Add, Double, Meet;
    if bits != [] {
      PackFits(bits[1..]);
      BitBelow(BitWord(bits[0]), Pack(bits[1..]), Above(|bits| - 1));
    }
  }

  lemma BitUnderDouble(b: bv32, m: bv32)
    requires b <= 1
    ensures Meet(b, Double(m)) == 0
  {
  }

  lemma MeetOfSum(x: bv32, y: bv32, z: bv32)
    requires Meet(x, z) == 0 && Meet(y, z) == 0
    ensures Meet(Add(x, y), z) == 0
  {
  }

  lemma BitBelow(b: bv32, p: bv32, m: bv32)
    requires b <= 1 && Meet(p, m) == 0
    ensures Meet(Add(b, Double(p)), Double(m)) == 0
  {
    DoubleZero();
    AddZero(0);
    hide Add, Double, Meet;
    BitUnderDouble(b, m);
    DoubleOfMeet(p, m);
    MeetOfSum(b, Double(p), Double(m));
  }

  lemma PackTopClear(bits: seq<bool>)
    requires |bits| <= 31
    ensures TopClear(Pack(bits))
  {
    hide Pack, Above, Meet;
    PackFits(bits);
    AboveTop(|bits|);
    DisjointShrinks(Pack(bits), Above(|bits|), 0x80000000);
  }

  lemma DisjointShrinks(p: bv32, m: bv32, t: bv32)
    requires Meet(p, m) == 0 && Meet(m, t) == t
    ensures Meet(p, t) == 0
  {
  }

  lemma MeetZero(m: bv32)
    ensures Meet(0, m) == 0
  {
  }

  lemma ShiftUndoesDouble(p: bv32)
    requires TopClear(p)
    ensures Shift(Double(p)) == p
  {
  }

  /** Feeding at most 32 bits to the register is the same as adding them, packed, to
      the register and then shifting it that many times. */
  lemma {:induction false} CrcBitsIsPackedShift(c: bv32, bits: seq<bool>)
    requires |bits| <= 32
    ensures CrcBits(c, bits) == ShiftN(Add(c, Pack(bits)), |bits|)
    decreases |bits|
  {
    hide Add, Shift, Double, TopClear, BitWord;
    if bits == [] {
      AddZero(c);
    } else {
      var b, p := BitWord(bits[0]), Pack(bits[1..]);
      PackTopClear(bits[1..]);
      ShiftUndoesDouble(p);
      ShiftLinear(Add(c, b), Double(p));
      AddAssociative(c, b, Double(p));
      CrcBitsIsPackedShift(Shift(Add(c, b)), bits[1..]);
    }
  }

  lemma {:induction false} PackInjective(u: seq<bool>, v: seq<bool>)
    requires |u| == |v| <= 32
    ensures Pack(u) == Pack(v) <==> u == v
  {
    hide Add, Double, TopClear;
    if u != [] {
      PackTopClear(u[1..]);
      PackTopClear(v[1..]);
      PackInjective(u[1..], v[1..]);
      assert u == [u[0]] + u[1..] && v == [v[0]] + v[1..];
      DoubleInjective(Pack(u[1..]), Pack(v[1..]), BitWord(u[0]), BitWord(v[0]));
    }
  }

  lemma Unpack(a: bv32, p: bv32)
    requires TopClear(p) && a <= 1
    ensures Add(a, Double(p)) & 1 == a
    ensures Add(a, Double(p)) >> 1 == p
  {
  }

  lemma DoubleInjective(p: bv32, q: bv32, a: bv32, b: bv32)
    requires TopClear(p) && TopClear(q)
    requires a <= 1 && b <= 1
    ensures Add(a, Double(p)) == Add(b, Double(q)) <==> a == b && p == q
  {
    hide Add, Double, TopClear;
    Unpack(a, p);
    Unpack(b, q);
  }

  // ---------------------------------------------------------------------------
  // Runs of any length
  // ---------------------------------------------------------------------------

  lemma {:induction false} CrcBitsAppend(c: bv32, u: seq<bool>, v: seq<bool>)
    ensures CrcBits(c, u + v) == CrcBits(CrcBits(c, u), v)
    decreases |u|
  {
    hide Add, Shift, BitWord;
    if u == [] {
      assert u + v == v;
    } else {
      assert (u + v)[1..] == u[1..] + v;
      CrcBitsAppend(Shift(Add(c, BitWord(u[0]))), u[1..], v);
    }
  }

  lemma {:induction false} CrcBitsInjectiveInState(c: bv32, d: bv32, u: seq<bool>)
    ensures CrcBits(c, u) == CrcBits(d, u) <==> c == d
    decreases |u|
  {
    hide Add, Shift, BitWord;
    if u != [] {
      var b := BitWord(u[0]);
      AddCommutative(c, b);
      AddCommutative(d, b);
      AddCancels(c, d, b);
      ShiftInjective(Add(c, b), Add(d, b));
      CrcBitsInjectiveInState(Shift(Add(c, b)), Shift(Add(d, b)), u[1..]);
    }
  }

  /** `u` and `v` agree outside the `w` positions from `k` on. */
  predicate DifferOnlyWithin(u: seq<bool>, v: seq<bool>, k: nat, w: nat) {
    |u| == |v| && k + w <= |u| && u[..k] == v[..k] && u[k + w..] == v[k + w..]
  }

  lemma CrcBitsAround(c: bv32, p: seq<bool>, a: seq<bool>, b: seq<bool>, t: seq<bool>)
    ensures CrcBits(c, p + a + t) == CrcBits(c, p + b + t) <==>
            CrcBits(CrcBits(c, p), a) == CrcBits(CrcBits(c, p), b)
  {
    hide *;
    var s := CrcBits(c, p);
    CrcBitsAppend(c, p + a, t);
    CrcBitsAppend(c, p, a);
    CrcBitsAppend(c, p + b, t);
    CrcBitsAppend(c, p, b);
    CrcBitsInjectiveInState(CrcBits(s, a), CrcBits(s, b), t);
  }

  /** A change confined to a window shows in the CRC of the whole stream exactly when it
      shows in the CRC of the window. */
  lemma WindowDecides(c: bv32, u: seq<bool>, v: seq<bool>, k: nat, w: nat)
    requires DifferOnlyWithin(u, v, k, w)
    ensures var s := CrcBits(c, u[..k]);
            CrcBits(c, u) == CrcBits(c, v) <==> CrcBits(s, u[k..k + w]) == CrcBits(s, v[k..k + w])
  {
    hide CrcBits;
    assert u == u[..k] + u[k..k + w] + u[k + w..];
    assert v == u[..k] + v[k..k + w] + u[k + w..];
    CrcBitsAround(c, u[..k], u[k..k + w], v[k..k + w], u[k + w..]);
  }

  lemma WindowEqual(u: seq<bool>, v: seq<bool>, k: nat, w: nat)
    requires DifferOnlyWithin(u, v, k, w)
    ensures u == v <==> u[k..k + w] == v[k..k + w]
  {
    assert u == u[..k] + u[k..k + w] + u[k + w..];
    assert v == v[..k] + v[k..k + w] + v[k + w..];
  }

  /** Any change confined to 32 consecutive bits shows. */
  lemma BurstShows(c: bv32, u: seq<bool>, v: seq<bool>, k: nat, w: nat)
    requires DifferOnlyWithin(u, v, k, w) && w <= 32
    ensures CrcBits(c, u) == CrcBits(c, v) <==> u == v
  {
    hide CrcBits, ShiftN, Pack, Add;
    var s := CrcBits(c, u[..k]);
    var uw, vw := u[k..k + w], v[k..k + w];
    WindowDecides(c, u, v, k, w);
    WindowEqual(u, v, k, w);
    CrcBitsIsPackedShift(s, uw);
    CrcBitsIsPackedShift(s, vw);
    ShiftNInjective(Add(s, Pack(uw)), Add(s, Pack(vw)), w);
    AddCancels(Pack(uw), Pack(vw), s);
    PackInjective(uw, vw);
  }

  // ---------------------------------------------------------------------------
  // Linearity, and the changes that do not show
  // ---------------------------------------------------------------------------

  function XorBits(u: seq<bool>, v: seq<bool>): (r: seq<bool>)
    requires |u| == |v|
    ensures |r| == |u|
  {
    seq(|u|, i requires 0 <= i < |u| => u[i] != v[i])
  }

  lemma BitWordXor(a: bool, b: bool)
    ensures BitWord(a != b) == Add(BitWord(a), BitWord(b))
  {
  }

  /** (a + b) + (c + d) == (a + c) + (b + d) */
  lemma AddExchange(a: bv32, b: bv32, c: bv32, d: bv32)
    ensures Add(Add(a, b), Add(c, d)) == Add(Add(a, c), Add(b, d))
  {
    hide Add;
    AddAssociative(a, b, Add(c, d));
    AddAssociative(b, c, d);
    AddCommutative(b, c);
    AddAssociative(c, b, d);
    AddAssociative(a, c, Add(b, d));
  }

  /** The CRC is linear: it maps the sum of two streams to the sum of their CRCs. */
  lemma {:induction false} CrcBitsLinear(c: bv32, d: bv32, u: seq<bool>, v: seq<bool>)
    requires |u| == |v|
    ensures CrcBits(Add(c, d), XorBits(u, v)) == Add(CrcBits(c, u), CrcBits(d, v))
    decreases |u|
  {
    hide Add, Shift, BitWord;
    if u != [] {
      var a, b := BitWord(u[0]), BitWord(v[0]);
      BitWordXor(u[0], v[0]);
      AddExchange(c, d, a, b);
      ShiftLinear(Add(c, a), Add(d, b));
      assert XorBits(u, v)[1..] == XorBits(u[1..], v[1..]);
      CrcBitsLinear(Shift(Add(c, a)), Shift(Add(d, b)), u[1..], v[1..]);
    }
  }

  lemma DoubleLinear(p: bv32, q: bv32)
    ensures Double(Add(p, q)) == Add(Double(p), Double(q))
  {
  }

  lemma {:induction false} PackLinear(u: seq<bool>, v: seq<bool>)
    requires |u| == |v|
    ensures Pack(XorBits(u, v)) == Add(Pack(u), Pack(v))
  {
    hide Add, Double, BitWord;
    if u == [] {
      AddZero(0);
    } else {
      var p, q := Pack(u[1..]), Pack(v[1..]);
      assert XorBits(u, v)[1..] == XorBits(u[1..], v[1..]);
      PackLinear(u[1..], v[1..]);
      BitWordXor(u[0], v[0]);
      DoubleLinear(p, q);
      AddExchange(BitWord(u[0]), BitWord(v[0]), Double(p), Double(q));
    }
  }

  // ---------------------------------------------------------------------------
  // Bytes
  // ---------------------------------------------------------------------------

  function DoubleN(c: bv32, n: nat): bv32
    decreases n
  {
    if n == 0 then c else Double(DoubleN(c, n - 1))
  }

  lemma {:induction false} PackAppend(u: seq<bool>, v: seq<bool>)
    ensures Pack(u + v) == Add(Pack(u), DoubleN(Pack(v), |u|))
  {
    hide Add, Double, BitWord;
    if u == [] {
      assert u + v == v;
      AddZero(Pack(v));
    } else {
      var b, p, q := BitWord(u[0]), Pack(u[1..]), DoubleN(Pack(v), |u| - 1);
      assert (u + v)[1..] == u[1..] + v;
      PackAppend(u[1..], v);
      DoubleLinear(p, q);
      AddAssociative(b, Double(p), Double(q));
    }
  }

  function NibbleWord(b0: bool, b1: bool, b2: bool, b3: bool): bv32 {
    Add(BitWord(b0), Double(Add(BitWord(b1), Double(Add(BitWord(b2), Double(BitWord(b3)))))))
  }

  lemma PackNibble(b0: bool, b1: bool, b2: bool, b3: bool)
    ensures Pack([b0, b1, b2, b3]) == NibbleWord(b0, b1, b2, b3)
  {
    hide Add, Double, BitWord;
    var t := [b0, b1, b2, b3];
    assert t[1..] == [b1, b2, b3];
    assert [b1, b2, b3][1..] == [b2, b3];
    assert [b2, b3][1..] == [b3];
    assert [b3][1..] == [];
    DoubleZero();
    assert Pack([b3]) == Add(BitWord(b3), Double(0));
    AddZero(BitWord(b3));
    assert Pack([b2, b3]) == Add(BitWord(b2), Double(BitWord(b3)));
    assert Pack([b1, b2, b3]) == Add(BitWord(b1), Double(Pack([b2, b3])));
  }

  lemma DoubleZero()
    ensures Double(0) == 0
  {
  }

  lemma ByteBitsAt(b: bv8)
    ensures var t := ByteBits(b);
            && t[0] == HasBit(b, 1) && t[1] == HasBit(b, 2) && t[2] == HasBit(b, 4) && t[3] == HasBit(b, 8)
            && t[4] == HasBit(b, 16) && t[5] == HasBit(b, 32) && t[6] == HasBit(b, 64) && t[7] == HasBit(b, 128)
  {
    hide HasBit;
  }

  lemma NibbleValue(b: bv8)
    ensures Pack(ByteBits(b)[..4]) == LowPart(b as bv32)
    ensures Pack(ByteBits(b)[4..]) == Down4(b as bv32)
  {
    hide Pack, LowPart, Down4, HasBit, ByteBits;
    var t := ByteBits(b);
    ByteBitsAt(b);
    assert t[..4] == [t[0], t[1], t[2], t[3]];
    assert t[4..] == [t[4], t[5], t[6], t[7]];
    PackNibble(t[0], t[1], t[2], t[3]);
    PackNibble(t[4], t[5], t[6], t[7]);
    LowNibbleValue(b);
    HighNibbleValue(b);
  }

  lemma LowNibbleValue(b: bv8)
    ensures NibbleWord(HasBit(b, 1), HasBit(b, 2), HasBit(b, 4), HasBit(b, 8)) == LowPart(b as bv32)
  {
  }

  lemma HighNibbleValue(b: bv8)
    ensures NibbleWord(HasBit(b, 16), HasBit(b, 32), HasBit(b, 64), HasBit(b, 128)) == Down4(b as bv32)
  {
  }

  lemma {:induction false} BitsAppend(x: seq<bv8>, y: seq<bv8>)
    ensures Bits(x + y) == Bits(x) + Bits(y)
  {
    hide ByteBits;
    if x == [] {
      assert x + y == y;
    } else {
      assert (x + y)[1..] == x[1..] + y;
      BitsAppend(x[1..], y);
    }
  }

  lemma ByteBitsInjective(a: bv8, b: bv8)
    ensures ByteBits(a) == ByteBits(b) <==> a == b
  {
    hide Pack, ByteBits;
    if ByteBits(a) == ByteBits(b) {
      NibbleValue(a);
      NibbleValue(b);
      NibblesDetermine(a, b);
    }
  }

  lemma NibblesDetermine(a: bv8, b: bv8)
    requires LowPart(a as bv32) == LowPart(b as bv32)
    requires Down4(a as bv32) == Down4(b as bv32)
    ensures a == b
  {
  }

  lemma {:induction false} BitsInjective(x: seq<bv8>, y: seq<bv8>)
    requires |x| == |y|
    ensures Bits(x) == Bits(y) <==> x == y
  {
    hide ByteBits;
    if x != [] {
      assert x == [x[0]] + x[1..] && y == [y[0]] + y[1..];
      assert Bits(x)[..8] == ByteBits(x[0]) && Bits(x)[8..] == Bits(x[1..]);
      assert Bits(y)[..8] == ByteBits(y[0]) && Bits(y)[8..] == Bits(y[1..]);
      ByteBitsInjective(x[0], y[0]);
      BitsInjective(x[1..], y[1..]);
    }
  }

  // ---------------------------------------------------------------------------
  // lfs_crc
  // ---------------------------------------------------------------------------

  const RTABLE: seq<bv32> := [
    0x00000000, 0x1db71064, 0x3b6e20c8, 0x26d930ac,
    0x76dc4190, 0x6b6b51f4, 0x4db26158, 0x5005713c,
    0xedb88320, 0xf00f9344, 0xd6d6a3e8, 0xcb61b38c,
    0x9b64c2b0, 0x86d3d2d4, 0xa00ae278, 0xbdbdf21c
  ]

  function HighPart(x: bv32): bv32 {
    x & 0xfffffff0
  }

  function LowPart(x: bv32): (r: bv32)
    ensures r <= 15
  {
    x & 0xf
  }

  function Down4(c: bv32): bv32 {
    c >> 4
  }

  function Table(n: bv32): bv32
    requires n <= 15
  {
    RTABLE[n as int]
  }

  /** Half of the loop body: `data` is the byte shifted so that its nibble is lowest. */
  function NibbleStep(c: bv32, data: bv32): bv32 {
    Add(Down4(c), Table(LowPart(Add(c, data))))
  }

  lemma TableEntry(n: bv32)
    requires n <= 15
    ensures Table(n) == ShiftN(n, 4)
  {
  }

  lemma {:induction false} ShiftNLinear(c: bv32, d: bv32, n: nat)
    ensures ShiftN(Add(c, d), n) == Add(ShiftN(c, n), ShiftN(d, n))
    decreases n
  {
    hide Add, Shift;
    if n > 0 {
      ShiftLinear(c, d);
      ShiftNLinear(Shift(c), Shift(d), n - 1);
    }
  }

  /** A register whose low nibble is empty is only moved down. */
  lemma HighPartShifts(h: bv32)
    requires LowPart(h) == 0
    ensures ShiftN(h, 4) == Down4(h)
  {
    assert Shift(h) == h >> 1;
    assert Shift(h >> 1) == h >> 2;
    assert Shift(h >> 2) == h >> 3;
    assert Shift(h >> 3) == h >> 4;
    assert ShiftN(h >> 2, 2) == h >> 4;
  }

  lemma SplitWord(x: bv32)
    ensures x == Add(HighPart(x), LowPart(x))
    ensures LowPart(HighPart(x)) == 0
    ensures Down4(HighPart(x)) == Down4(x)
  {
  }

  lemma SplitSum(c: bv32, data: bv32)
    ensures Down4(Add(c, LowPart(data))) == Down4(c)
    ensures LowPart(Add(c, LowPart(data))) == LowPart(Add(c, data))
  {
  }

  /** One table look-up does the work of four shifts. */
  lemma NibbleStepIsFourShifts(c: bv32, data: bv32)
    ensures NibbleStep(c, data) == ShiftN(Add(c, LowPart(data)), 4)
  {
    hide Add, Down4, LowPart, HighPart, Table, ShiftN;
    var x := Add(c, LowPart(data));
    SplitSum(c, data);
    SplitWord(x);
    ShiftNLinear(HighPart(x), LowPart(x), 4);
    HighPartShifts(HighPart(x));
    TableEntry(LowPart(x));
  }

  /** The two statements of the loop body feed the eight bits of one byte. */
  lemma ByteStepIsEightBits(c: bv32, b: bv8)
    ensures NibbleStep(NibbleStep(c, b as bv32), Down4(b as bv32)) == CrcBits(c, ByteBits(b))
  {
    hide NibbleStep, CrcBits, ByteBits, ShiftN, Pack, Add, LowPart, Down4;
    var lo, hi := ByteBits(b)[..4], ByteBits(b)[4..];
    var d := CrcBits(c, lo);
    NibbleValue(b);
    NibbleStepIsFourShifts(c, b as bv32);
    CrcBitsIsPackedShift(c, lo);
    NibbleStepIsFourShifts(d, Down4(b as bv32));
    CrcBitsIsPackedShift(d, hi);
    HighNibbleSmall(b);
    assert ByteBits(b) == lo + hi;
    CrcBitsAppend(c, lo, hi);
  }

  lemma HighNibbleSmall(b: bv8)
    ensures LowPart(Down4(b as bv32)) == Down4(b as bv32)
  {
  }

  /** The reference CRC of a buffer. */
  function CrcOf(crc: bv32, buffer: seq<bv8>): bv32 {
    CrcBits(crc, Bits(buffer))
  }

  lemma CrcOfSnoc(crc: bv32, buffer: seq<bv8>, b: bv8)
    ensures CrcOf(crc, buffer + [b]) == CrcBits(CrcOf(crc, buffer), ByteBits(b))
  {
    hide CrcBits, ByteBits;
    BitsAppend(buffer, [b]);
    assert Bits([b]) == ByteBits(b);
    CrcBitsAppend(crc, Bits(buffer), ByteBits(b));
  }

  /** lfs_crc: the table-driven loop computes the bit-at-a-time CRC. */
  method Crc(crc: bv32, buffer: seq<bv8>) returns (r: bv32)
    ensures r == CrcOf(crc, buffer)
  {
    hide *;
    r := crc;
    assert buffer[..0] == [];
    CrcOfEmpty(crc);
    for i := 0 to |buffer|
      invariant r == CrcOf(crc, buffer[..i])
    {
      ByteStepIsEightBits(r, buffer[i]);
      CrcOfSnoc(crc, buffer[..i], buffer[i]);
      assert buffer[..i + 1] == buffer[..i] + [buffer[i]];
      r := NibbleStep(r, buffer[i] as bv32);
      r := NibbleStep(r, Down4(buffer[i] as bv32));
    }
    assert buffer[..|buffer|] == buffer;
  }

  lemma CrcOfEmpty(crc: bv32)
    ensures CrcOf(crc, []) == crc
  {
  }

  /** Feeding a buffer in two pieces. */
  lemma CrcComposes(crc: bv32, x: seq<bv8>, y: seq<bv8>)
    ensures CrcOf(crc, x + y) == CrcOf(CrcOf(crc, x), y)
  {
    hide CrcBits, Bits;
    BitsAppend(x, y);
    CrcBitsAppend(crc, Bits(x), Bits(y));
  }

  function XorBytes(x: seq<bv8>, y: seq<bv8>): (r: seq<bv8>)
    requires |x| == |y|
    ensures |r| == |x|
  {
    if x == [] then [] else [x[0] ^ y[0]] + XorBytes(x[1..], y[1..])
  }

  lemma XorBitsAppend(a: seq<bool>, b: seq<bool>, c: seq<bool>, d: seq<bool>)
    requires |a| == |b| && |c| == |d|
    ensures XorBits(a + c, b + d) == XorBits(a, b) + XorBits(c, d)
  {
  }

  lemma HasBitXor(a: bv8, b: bv8, m: bv8)
    requires m == 1 || m == 2 || m == 4 || m == 8 || m == 16 || m == 32 || m == 64 || m == 128
    ensures HasBit(a ^ b, m) == (HasBit(a, m) != HasBit(b, m))
  {
  }

  lemma ByteBitsXor(a: bv8, b: bv8)
    ensures ByteBits(a ^ b) == XorBits(ByteBits(a), ByteBits(b))
  {
    hide HasBit, ByteBits, XorBits;
    ByteBitsAt(a);
    ByteBitsAt(b);
    ByteBitsAt(a ^ b);
    HasBitXor(a, b, 1);
    HasBitXor(a, b, 2);
    HasBitXor(a, b, 4);
    HasBitXor(a, b, 8);
    HasBitXor(a, b, 16);
    HasBitXor(a, b, 32);
    HasBitXor(a, b, 64);
    HasBitXor(a, b, 128);
    XorOfEight(ByteBits(a), ByteBits(b), ByteBits(a ^ b));
  }

  lemma XorOfEight(u: seq<bool>, v: seq<bool>, r: seq<bool>)
    requires |u| == |v| == |r| == 8
    requires r[0] == (u[0] != v[0]) && r[1] == (u[1] != v[1]) && r[2] == (u[2] != v[2]) && r[3] == (u[3] != v[3])
    requires r[4] == (u[4] != v[4]) && r[5] == (u[5] != v[5]) && r[6] == (u[6] != v[6]) && r[7] == (u[7] != v[7])
    ensures r == XorBits(u, v)
  {
    forall i | 0 <= i < 8
      ensures r[i] == XorBits(u, v)[i]
    {
      assert i == 0 || i == 1 || i == 2 || i == 3 || i == 4 || i == 5 || i == 6 || i == 7;
    }
  }

  lemma {:induction false} BitsXor(x: seq<bv8>, y: seq<bv8>)
    requires |x| == |y|
    ensures Bits(XorBytes(x, y)) == XorBits(Bits(x), Bits(y))
  {
    hide ByteBits;
    if x != [] {
      ByteBitsXor(x[0], y[0]);
      BitsXor(x[1..], y[1..]);
      assert XorBytes(x, y)[1..] == XorBytes(x[1..], y[1..]);
      XorBitsAppend(ByteBits(x[0]), ByteBits(y[0]), Bits(x[1..]), Bits(y[1..]));
    }
  }

  /** lfs_crc is linear over xor for buffers of equal length. */
  lemma CrcLinear(c: bv32, d: bv32, x: seq<bv8>, y: seq<bv8>)
    requires |x| == |y|
    ensures CrcOf(c ^ d, XorBytes(x, y)) == CrcOf(c, x) ^ CrcOf(d, y)
  {
    hide CrcBits, Bits, XorBits, XorBytes;
    BitsXor(x, y);
    CrcBitsLinear(c, d, Bits(x), Bits(y));
  }

  /** Two buffers that differ only inside four consecutive bytes never share a CRC. */
  lemma FourByteWindowShows(crc: bv32, x: seq<bv8>, y: seq<bv8>, k: nat, w: nat)
    requires |x| == |y| && w <= 4 && k + w <= |x|
    requires x[..k] == y[..k] && x[k + w..] == y[k + w..]
    ensures CrcOf(crc, x) == CrcOf(crc, y) <==> x == y
  {
    hide CrcBits, Bits;
    BitsSplit(x, k);
    BitsSplit(y, k);
    BitsSplit(x, k + w);
    BitsSplit(y, k + w);
    BurstShows(crc, Bits(x), Bits(y), 8 * k, 8 * w);
    BitsInjective(x, y);
  }

  lemma BitsSplit(x: seq<bv8>, k: nat)
    requires k <= |x|
    ensures Bits(x)[..8 * k] == Bits(x[..k])
    ensures Bits(x)[8 * k..] == Bits(x[k..])
  {
    hide Bits;
    BitsAppend(x[..k], x[k..]);
    assert x == x[..k] + x[k..];
  }

  // ---------------------------------------------------------------------------
  // What a 33-bit change can hide
  // ---------------------------------------------------------------------------

  /** x^32 + x^26 + x^23 + x^22 + x^16 + x^12 + x^11 + x^10 + x^8 + x^7 + x^5 + x^4 + x^2 + x + 1
      as a bit stream, highest power first. */
  const GENERATOR: seq<bool> :=
    seq(33, i => 32 - i in {32, 26, 23, 22, 16, 12, 11, 10, 8, 7, 5, 4, 2, 1, 0})

  lemma GeneratorNibbles(g: seq<bool>)
    requires g == GENERATOR[1..]
    ensures Starts(g, 0, false, false, false, false) && Starts(g, 4, false, true, false, false)
    ensures Starts(g, 8, true, true, false, false) && Starts(g, 12, false, false, false, true)
    ensures Starts(g, 16, false, false, false, true) && Starts(g, 20, true, true, false, true)
    ensures Starts(g, 24, true, false, true, true) && Starts(g, 28, false, true, true, true)
  {
  }

  predicate Starts(g: seq<bool>, k: nat, b0: bool, b1: bool, b2: bool, b3: bool) {
    k + 4 <= |g| && g[k] == b0 && g[k + 1] == b1 && g[k + 2] == b2 && g[k + 3] == b3
  }

  lemma PackGenerator()
    ensures |GENERATOR| == 33 && GENERATOR[0]
    ensures Pack(GENERATOR[1..]) == POLY
  {
    var g := GENERATOR[1..];
    GeneratorNibbles(g);
    assert Pack([]) == 0;
    hide Pack;
    Hex(g, 28, 0xe, false, true, true, true, 0);
    Hex(g, 24, 0xd, true, false, true, true, 0xe);
    Hex(g, 20, 0xb, true, true, false, true, 0xed);
    Hex(g, 16, 8, false, false, false, true, 0xedb);
    Hex(g, 12, 8, false, false, false, true, 0xedb8);
    Hex(g, 8, 3, true, true, false, false, 0xedb88);
    Hex(g, 4, 2, false, true, false, false, 0xedb883);
    Hex(g, 0, 0, false, false, false, false, 0xedb8832);
    assert g[0..] == g;
  }

  lemma Hex(g: seq<bool>, k: nat, v: bv32, b0: bool, b1: bool, b2: bool, b3: bool, r: bv32)
    requires Starts(g, k, b0, b1, b2, b3)
    requires v == NibbleWord(b0, b1, b2, b3)
    requires Pack(g[k + 4..]) == r
    ensures Pack(g[k..]) == v ^ (r << 4)
  {
    hide Pack, NibbleWord;
    assert g[k..] == [b0, b1, b2, b3] + g[k + 4..];
    PackNibble(b0, b1, b2, b3);
    PrependHex([b0, b1, b2, b3], g[k + 4..], v, r);
  }

  lemma PrependHex(n: seq<bool>, rest: seq<bool>, v: bv32, r: bv32)
    requires |n| == 4 && Pack(n) == v && Pack(rest) == r
    ensures Pack(n + rest) == v ^ (r << 4)
  {
    PackAppend(n, rest);
    assert DoubleN(r, 4) == Double(Double(Double(Double(r))));
  }

  /** Adding `x` to both sides of an equation of words. */
  lemma AddTransposes(a: bv32, x: bv32, b: bv32, y: bv32)
    ensures Add(a, x) == Add(b, y) <==> Add(a, b) == Add(x, y)
  {
    hide Add;
    AddCancels(Add(a, x), Add(b, y), Add(b, x));
    AddCommutative(b, x);
    AddAssociative(Add(b, x), a, x);
    AddMoves(a, x, b, y);
  }

  lemma AddMoves(a: bv32, x: bv32, b: bv32, y: bv32)
    ensures Add(Add(b, x), Add(a, x)) == Add(a, b)
    ensures Add(Add(b, x), Add(b, y)) == Add(x, y)
  {
    assert (b ^ x) ^ (a ^ x) == a ^ b;
    assert (b ^ x) ^ (b ^ y) == x ^ y;
  }

  lemma SplitBitShift(s: bv32)
    ensures Add(Shift(Add(s, BitWord(true))), Shift(Add(s, BitWord(false)))) == POLY
    ensures Add(Shift(Add(s, BitWord(false))), Shift(Add(s, BitWord(true)))) == POLY
  {
    var p, q := Add(s, BitWord(true)), Add(s, BitWord(false));
    assert Shift(Add(p, q)) == POLY;
    hide Shift, Add, BitWord;
    ShiftLinear(p, q);
    AddCommutative(Shift(p), Shift(q));
  }

  /** Windows of 33 bits that differ in their first bit collide exactly when their sum is
      the generator. */
  lemma GeneratorOnly(s: bv32, u: seq<bool>, v: seq<bool>)
    requires |u| == |v| == 33 && u[0] != v[0]
    ensures CrcBits(s, u) == CrcBits(s, v) <==> XorBits(u, v) == GENERATOR
  {
    hide *;
    var a, b := Shift(Add(s, BitWord(u[0]))), Shift(Add(s, BitWord(v[0])));
    var x, y := u[1..], v[1..];
    assert Add(a, b) == POLY by { SplitBitShift(s); }
    FirstBit(s, u, v);
    PackGenerator();
    HeadedEqual(XorBits(u, v), GENERATOR);
    CrcBitsIsPackedShift(a, x);
    CrcBitsIsPackedShift(b, y);
    ShiftNInjective(Add(a, Pack(x)), Add(b, Pack(y)), 32);
    AddTransposes(a, Pack(x), b, Pack(y));
    PackLinear(x, y);
    PackInjective(XorBits(x, y), GENERATOR[1..]);
  }

  lemma FirstBit(s: bv32, u: seq<bool>, v: seq<bool>)
    requires |u| == |v| > 0 && u[0] != v[0]
    ensures CrcBits(s, u) == CrcBits(Shift(Add(s, BitWord(u[0]))), u[1..])
    ensures CrcBits(s, v) == CrcBits(Shift(Add(s, BitWord(v[0]))), v[1..])
    ensures XorBits(u, v)[0] && XorBits(u, v)[1..] == XorBits(u[1..], v[1..])
  {
    hide Shift, Add, BitWord;
  }

  lemma HeadedEqual(p: seq<bool>, q: seq<bool>)
    requires |p| == |q| > 0 && p[0] && q[0]
    ensures p == q <==> p[1..] == q[1..]
  {
    assert p == [true] + p[1..] && q == [true] + q[1..];
  }

  /** The exact limit of burst detection: a change confined to 33 consecutive bits goes
      unseen if and only if it adds the generator polynomial there. */
  lemma BurstOf33(c: bv32, u: seq<bool>, v: seq<bool>, k: nat)
    requires DifferOnlyWithin(u, v, k, 33)
    ensures CrcBits(c, u) == CrcBits(c, v) <==>
            u == v || XorBits(u[k..k + 33], v[k..k + 33]) == GENERATOR
  {
    hide CrcBits, Pack;
    var s := CrcBits(c, u[..k]);
    PackGenerator();
    if u[k] == v[k] {
      assert u[..k + 1] == u[..k] + [u[k]] && v[..k + 1] == v[..k] + [v[k]];
      BurstShows(c, u, v, k + 1, 32);
      assert !XorBits(u[k..k + 33], v[k..k + 33])[0];
    } else {
      WindowDecides(c, u, v, k, 33);
      WindowEqual(u, v, k, 33);
      GeneratorOnly(s, u[k..k + 33], v[k..k + 33]);
    }
  }
}
