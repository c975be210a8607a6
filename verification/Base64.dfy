/** Base64 as section 4 of RFC 4648 defines it, the contract taken for the library codec. */
module Base64 {
  import opened Basics

  /** The alphabet of section 4 of RFC 4648. */
  function Symbol(v: int): (c: char)
    requires 0 <= v < 64
    ensures c != '-' && c != '='
  {
    if v < 26 then ('A' as int + v) as char
    else if v < 52 then ('a' as int + (v - 26)) as char
    else if v < 62 then ('0' as int + (v - 52)) as char
    else if v == 62 then '+' else '/'
  }

  function SymbolValue(c: char): (o: Option<int>)
    ensures o.Some? ==> 0 <= o.value < 64
  {
    if 'A' <= c <= 'Z' then Some(c as int - 'A' as int)
    else if 'a' <= c <= 'z' then Some(c as int - 'a' as int + 26)
    else if '0' <= c <= '9' then Some(c as int - '0' as int + 52)
    else if c == '+' then Some(62)
    else if c == '/' then Some(63) else None
  }

  lemma SymbolRoundTrip(v: int)
    requires 0 <= v < 64
    ensures SymbolValue(Symbol(v)) == Some(v)
  {
  }

  /** Table 1 of RFC 4648: three runs of consecutive characters and two more. */
  lemma SymbolIs(v: int)
    requires 0 <= v < 64
    ensures Symbol(0) == 'A' && Symbol(25) == 'Z' && Symbol(26) == 'a' && Symbol(51) == 'z'
    ensures Symbol(52) == '0' && Symbol(61) == '9' && Symbol(62) == '+' && Symbol(63) == '/'
    ensures v !in {25, 51, 61, 62, 63} ==> Symbol(v + 1) as int == Symbol(v) as int + 1
  {
  }

  // The four six-bit parts of three bytes.

  function First(x: Byte): (v: int)
    ensures 0 <= v < 64
  {
    x / 4
  }

  function Second(x: Byte, y: Byte): (v: int)
    ensures 0 <= v < 64
  {
    x % 4 * 16 + y / 16
  }

  function Third(y: Byte, z: Byte): (v: int)
    ensures 0 <= v < 64
  {
    y % 16 * 4 + z / 64
  }

  function Fourth(z: Byte): (v: int)
    ensures 0 <= v < 64
  {
    z % 64
  }

  lemma Regroup(x: Byte, y: Byte, z: Byte)
    ensures First(x) * 4 + Second(x, y) / 16 == x
    ensures Second(x, y) % 16 * 16 + Third(y, z) / 4 == y
    ensures Third(y, z) % 4 * 64 + Fourth(z) == z
    ensures Second(x, 0) % 16 == 0 && Third(y, 0) % 4 == 0
  {
    assert Second(x, y) / 16 == x % 4 && Second(x, y) % 16 == y / 16;
    assert Third(y, z) / 4 == y % 16 && Third(y, z) % 4 == z / 64;
  }

  /** What mbedtls_base64_encode produces. */
  function Encode(s: seq<Byte>): (t: string)
    ensures |t| == (|s| + 2) / 3 * 4
    ensures s != [] ==> t[0] != '-'
  {
    if |s| == 0 then []
    else if |s| == 1 then [Symbol(First(s[0])), Symbol(Second(s[0], 0)), '=', '=']
    else if |s| == 2 then [Symbol(First(s[0])), Symbol(Second(s[0], s[1])), Symbol(Third(s[1], 0)), '=']
    else
      [Symbol(First(s[0])), Symbol(Second(s[0], s[1])), Symbol(Third(s[1], s[2])), Symbol(Fourth(s[2]))]
      + Encode(s[3..])
  }

  function DecodeGroup(a: char, b: char, c: char, d: char): Option<seq<Byte>> {
    match (SymbolValue(a), SymbolValue(b), SymbolValue(c), SymbolValue(d))
    case (Some(p), Some(q), Some(r), Some(s)) => Some([p * 4 + q / 16, q % 16 * 16 + r / 4, r % 4 * 64 + s])
    case (Some(p), Some(q), Some(r), None) =>
      if d == '=' && r % 4 == 0 then Some([p * 4 + q / 16, q % 16 * 16 + r / 4]) else None
    case (Some(p), Some(q), None, None) =>
      if c == '=' && d == '=' && q % 16 == 0 then Some([p * 4 + q / 16]) else None
    case _ => None
  }

  /** Whole groups of four symbols, padding only in the last. */
  function Decode(t: string): Option<seq<Byte>> {
    if |t| == 0 then Some([])
    else if |t| < 4 then None
    else
      match DecodeGroup(t[0], t[1], t[2], t[3])
      case None => None
      case Some(head) =>
        if |head| < 3 then (if |t| == 4 then Some(head) else None)
        else
          match Decode(t[4..])
          case None => None
          case Some(tail) => Some(head + tail)
  }

  lemma DecodeFull(x: Byte, y: Byte, z: Byte)
    ensures DecodeGroup(Symbol(First(x)), Symbol(Second(x, y)), Symbol(Third(y, z)), Symbol(Fourth(z))) == Some([x, y, z])
  {
    hide First, Second, Third, Fourth, Symbol, SymbolValue;
    SymbolRoundTrip(First(x));
    SymbolRoundTrip(Second(x, y));
    SymbolRoundTrip(Third(y, z));
    SymbolRoundTrip(Fourth(z));
    Regroup(x, y, z);
  }

  lemma DecodeTwo(x: Byte, y: Byte)
    ensures DecodeGroup(Symbol(First(x)), Symbol(Second(x, y)), Symbol(Third(y, 0)), '=') == Some([x, y])
  {
    assert SymbolValue('=') == None;
    hide First, Second, Third, Symbol, SymbolValue;
    SymbolRoundTrip(First(x));
    SymbolRoundTrip(Second(x, y));
    SymbolRoundTrip(Third(y, 0));
    Regroup(x, y, 0);
  }

  lemma DecodeOne(x: Byte)
    ensures DecodeGroup(Symbol(First(x)), Symbol(Second(x, 0)), '=', '=') == Some([x])
  {
    assert SymbolValue('=') == None;
    hide First, Second, Symbol, SymbolValue;
    SymbolRoundTrip(First(x));
    SymbolRoundTrip(Second(x, 0));
    Regroup(x, 0, 0);
  }

  lemma {:induction false} DecodeEncode(s: seq<Byte>)
    ensures Decode(Encode(s)) == Some(s)
  {
    hide Symbol, SymbolValue, DecodeGroup, First, Second, Third, Fourth;
    if |s| == 1 {
      DecodeOne(s[0]);
      assert s == [s[0]];
    } else if |s| == 2 {
      DecodeTwo(s[0], s[1]);
      assert s == [s[0], s[1]];
    } else if |s| >= 3 {
      DecodeFull(s[0], s[1], s[2]);
      DecodeEncode(s[3..]);
      assert Encode(s)[4..] == Encode(s[3..]);
      assert s == [s[0], s[1], s[2]] + s[3..];
    }
  }

  lemma {:induction false} DecodedLength(t: string)
    ensures Decode(t).Some? ==> 4 * |Decode(t).value| <= 3 * |t|
  {
    hide DecodeGroup;
    if |t| >= 4 {
      GroupLength(t[0], t[1], t[2], t[3]);
      DecodedLength(t[4..]);
    }
  }

  lemma GroupLength(a: char, b: char, c: char, d: char)
    ensures DecodeGroup(a, b, c, d).Some? ==> 1 <= |DecodeGroup(a, b, c, d).value| <= 3
  {
  }

  /** What three bytes encode to: the symbols of the four digits to base 64 of the number that
      they are the digits of to base 256. */
  lemma GroupIs(x: Byte, y: Byte, z: Byte)
    ensures var n := (x as int * 256 + y as int) * 256 + z as int;
            n / 64 / 64 / 64 < 64 &&
            Encode([x, y, z]) == [Symbol(n / 64 / 64 / 64), Symbol(n / 64 / 64 % 64), Symbol(n / 64 % 64), Symbol(n % 64)]
  {
    hide Symbol;
    Digits(x, y, z);
    assert [x, y, z][3..] == [] && Encode([]) == "";
  }

  lemma Digits(x: Byte, y: Byte, z: Byte)
    ensures var n := (x as int * 256 + y as int) * 256 + z as int;
            n / 64 / 64 / 64 == First(x) && n / 64 / 64 % 64 == Second(x, y) && n / 64 % 64 == Third(y, z) && n % 64 == Fourth(z)
  {
    var a, b, c, d := First(x), Second(x, y), Third(y, z), Fourth(z);
    assert (x as int * 256 + y as int) * 256 + z as int == 64 * (64 * (64 * a + b) + c) + d;
    hide First, Second, Third, Fourth;
    Split64(64 * (64 * a + b) + c, d);
    Split64(64 * a + b, c);
    Split64(a, b);
  }

  lemma Split64(q: int, r: int)
    requires 0 <= r < 64
    ensures (64 * q + r) / 64 == q && (64 * q + r) % 64 == r
  {
  }

  /** One or two bytes encode like a group filled up with zero bits, with padding for the
      digits that hold none of their bits. */
  lemma PaddedIs(x: Byte, y: Byte)
    ensures Encode([x]) == Encode([x, 0, 0])[..2] + "=="
    ensures Encode([x, y]) == Encode([x, y, 0])[..3] + "="
  {
    assert [x, 0, 0][3..] == [] && [x, y, 0][3..] == [];
  }
}
