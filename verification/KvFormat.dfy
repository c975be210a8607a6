/** Values of the key-value store and the type-length-value files that hold them. */
module KvFormat {
  import opened Basics

  /** KVStoreValueType_t without KV_TYPE_NONE, which is `Option.None` here. */
  datatype Kind = BaseT | UBaseT | Int32 | UInt32 | String | Blob

  datatype Value = Value(kind: Kind, bytes: seq<Byte>)

  /** size_t is 32 bits wide on the target. */
  const SIZE_LIMIT: int := 0x1_0000_0000

  /** sizeof( KVStoreTLVHeader_t ): a 32-bit enum and a 32-bit size_t. */
  const HEADER_SIZE := 8

  predicate Storable(v: Value) {
    0 < |v.bytes| < SIZE_LIMIT
  }

  // ---------------------------------------------------------------------------
  // Little-endian words
  // ---------------------------------------------------------------------------

  function ToLE32(n: int): (s: seq<Byte>)
    requires 0 <= n < SIZE_LIMIT
    ensures |s| == 4
  {
    [n % 256, n / 256 % 256, n / 65536 % 256, n / 16777216]
  }

  function FromLE32(s: seq<Byte>): (n: int)
    requires |s| == 4
    ensures 0 <= n < SIZE_LIMIT
  {
    s[0] as int + 256 * s[1] as int + 65536 * s[2] as int + 16777216 * s[3] as int
  }

  lemma LE32RoundTrip(n: int)
    requires 0 <= n < SIZE_LIMIT
    ensures FromLE32(ToLE32(n)) == n
  {
    var a, b, c := n / 256, n / 65536, n / 16777216;
    assert b == a / 256 && c == b / 256;
    assert n == 256 * a + n % 256 && a == 256 * b + a % 256 && b == 256 * c + b % 256;
  }

  lemma LE32Onto(s: seq<Byte>)
    requires |s| == 4
    ensures ToLE32(FromLE32(s)) == s
  {
    var n := FromLE32(s);
    assert n / 256 == s[1] as int + 256 * s[2] as int + 65536 * s[3] as int;
    assert n / 65536 == s[2] as int + 256 * s[3] as int;
    assert n / 16777216 == s[3];
  }

  // ---------------------------------------------------------------------------
  // The file of one key
  // ---------------------------------------------------------------------------

  function KindCode(k: Kind): (c: int)
    ensures 0 < c < 7
  {
    match k
    case BaseT => 1
    case UBaseT => 2
    case Int32 => 3
    case UInt32 => 4
    case String => 5
    case Blob => 6
  }

  function KindOf(code: int): Option<Kind> {
    match code
    case 1 => Some(BaseT)
    case 2 => Some(UBaseT)
    case 3 => Some(Int32)
    case 4 => Some(UInt32)
    case 5 => Some(String)
    case 6 => Some(Blob)
    case _ => None
  }

  function Header(kind: Kind, length: int): (s: seq<Byte>)
    requires 0 <= length < SIZE_LIMIT
    ensures |s| == HEADER_SIZE
  {
    ToLE32(KindCode(kind)) + ToLE32(length)
  }

  /** What a complete write of `v` leaves in its file. */
  function Encode(v: Value): seq<Byte>
    requires Storable(v)
  {
    Header(v.kind, |v.bytes|) + v.bytes
  }

  function HeaderKind(f: seq<Byte>): int
    requires |f| >= HEADER_SIZE
  {
    FromLE32(f[..4])
  }

  function HeaderLength(f: seq<Byte>): int
    requires |f| >= HEADER_SIZE
  {
    FromLE32(f[4..8])
  }

  /** The value a file holds, if it holds a whole one. */
  function Decode(f: seq<Byte>): (o: Option<Value>)
    ensures o.Some? ==> Storable(o.value)
  {
    if |f| <= HEADER_SIZE || HeaderLength(f) != |f| - HEADER_SIZE || KindOf(HeaderKind(f)).None? then None
    else Some(Value(KindOf(HeaderKind(f)).value, f[8..]))
  }

  lemma HeaderFields(kind: Kind, length: int, rest: seq<Byte>)
    requires 0 <= length < SIZE_LIMIT
    ensures var f := Header(kind, length) + rest;
            && HeaderKind(f) == KindCode(kind) && HeaderLength(f) == length
            && KindOf(HeaderKind(f)) == Some(kind) && f[8..] == rest
  {
    var f := Header(kind, length) + rest;
    assert f[..4] == ToLE32(KindCode(kind));
    assert f[4..8] == ToLE32(length);
    LE32RoundTrip(KindCode(kind));
    LE32RoundTrip(length);
  }

  /** Reading back a completely written file. */
  lemma DecodeEncode(v: Value)
    requires Storable(v)
    ensures Decode(Encode(v)) == Some(v)
  {
    HeaderFields(v.kind, |v.bytes|, v.bytes);
  }

  /** A file that some write of this module left behind, whole or cut short. */
  ghost predicate Written(f: seq<Byte>) {
    exists v :: Storable(v) && f <= Encode(v)
  }

  /** A write that was cut short never reads back as a value. */
  lemma CutShortDecodesToNone(v: Value, f: seq<Byte>)
    requires Storable(v) && f < Encode(v)
    ensures Decode(f) == None
  {
    if |f| > HEADER_SIZE {
      assert f == Encode(v)[..|f|];
      assert f == Header(v.kind, |v.bytes|) + v.bytes[..|f| - HEADER_SIZE];
      HeaderFields(v.kind, |v.bytes|, v.bytes[..|f| - HEADER_SIZE]);
    }
  }

  /** Conversely, a file that decodes is the encoding of what it decodes to. */
  lemma EncodeDecode(f: seq<Byte>)
    requires Decode(f).Some?
    ensures Encode(Decode(f).value) == f
  {
    LE32Onto(f[..4]);
    LE32Onto(f[4..8]);
    assert f == f[..4] + f[4..8] + f[8..];
  }

  /** The header of a written file never claims fewer bytes than follow it. */
  lemma WrittenHeader(f: seq<Byte>)
    requires Written(f) && |f| >= HEADER_SIZE
    ensures KindOf(HeaderKind(f)).Some?
    ensures 0 < HeaderLength(f) && |f| - HEADER_SIZE <= HeaderLength(f)
  {
    var v :| Storable(v) && f <= Encode(v);
    assert f == Header(v.kind, |v.bytes|) + v.bytes[..|f| - HEADER_SIZE];
    HeaderFields(v.kind, |v.bytes|, v.bytes[..|f| - HEADER_SIZE]);
  }

  /** The bytes of a file, as the enumeration and the target's byte order make them: the type
      from 1 for BaseType_t to 6 for a blob, the length with its lowest byte first, and the
      value. */
  lemma FileLayout(v: Value)
    requires Storable(v)
    ensures var f := Encode(v);
            && |f| == 8 + |v.bytes| && f[8..] == v.bytes
            && (v.kind == BaseT ==> f[0] == 1) && (v.kind == UBaseT ==> f[0] == 2) && (v.kind == Int32 ==> f[0] == 3)
            && (v.kind == UInt32 ==> f[0] == 4) && (v.kind == String ==> f[0] == 5) && (v.kind == Blob ==> f[0] == 6)
            && f[1] == f[2] == f[3] == 0
            && f[4] as int + 256 * f[5] as int + 65536 * f[6] as int + 16777216 * f[7] as int == |v.bytes|
  {
    LE32RoundTrip(|v.bytes|);
    var f, n := Encode(v), ToLE32(|v.bytes|);
    assert f[4] == n[0] && f[5] == n[1] && f[6] == n[2] && f[7] == n[3];
  }
}
