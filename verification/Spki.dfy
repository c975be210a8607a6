/** SubjectPublicKeyInfo objects: the backward DER writer over PSA keys, a parser for what
    it writes, and the fixed-header export over PKCS#11. */
module Spki {
  import opened Basics

  // ---------------------------------------------------------------------------
  // DER, section 8.1 of X.690
  // ---------------------------------------------------------------------------

  const BIT_STRING: Byte := 0x03
  const NULL_TAG: Byte := 0x05
  const OID: Byte := 0x06
  const SEQUENCE: Byte := 0x30

  /** Length octets, shortest form. */
  function LengthOctets(n: nat): (s: seq<Byte>)
    requires n < 0x1_0000_0000
    ensures 1 <= |s| <= 5
  {
    if n < 0x80 then [n]
    else if n < 0x100 then [0x81, n]
    else if n < 0x1_0000 then [0x82, n / 0x100, n % 0x100]
    else if n < 0x100_0000 then [0x83, n / 0x1_0000, n / 0x100 % 0x100, n % 0x100]
    else [0x84, n / 0x100_0000, n / 0x1_0000 % 0x100, n / 0x100 % 0x100, n % 0x100]
  }

  function BigEndian(s: seq<Byte>): nat {
    if s == [] then 0 else 256 * BigEndian(s[..|s| - 1]) + s[|s| - 1] as int
  }

  /** Section 8.1.3 of X.690: below 128 the length itself; else the number of octets that
      follow, and in these the length, highest octet first and without leading zeros. */
  lemma LengthOctetsAre(n: nat)
    requires n < 0x1_0000_0000
    ensures n < 128 ==> LengthOctets(n) == [n]
    ensures n >= 128 ==>
              var s := LengthOctets(n);
              |s| >= 2 && s[0] == 128 + |s| - 1 && s[1] != 0 && BigEndian(s[1..]) == n
  {
    hide BigEndian;
    if n >= 128 {
      Octets(n);
      BigEndianOf(LengthOctets(n)[1..]);
    }
  }

  lemma Octets(n: nat)
    ensures n == 0x100_0000 * (n / 0x100_0000) + 0x1_0000 * (n / 0x1_0000 % 0x100) + 0x100 * (n / 0x100 % 0x100) + n % 0x100
    ensures n < 0x100_0000 ==> n == 0x1_0000 * (n / 0x1_0000) + 0x100 * (n / 0x100 % 0x100) + n % 0x100
  {
    var a, b, c := n / 0x100, n / 0x1_0000, n / 0x100_0000;
    assert b == a / 0x100 && c == b / 0x100;
    assert n == 0x100 * a + n % 0x100 && a == 0x100 * b + a % 0x100 && b == 0x100 * c + b % 0x100;
  }

  lemma BigEndianOf(t: seq<Byte>)
    requires 1 <= |t| <= 4
    ensures |t| == 1 ==> BigEndian(t) == t[0]
    ensures |t| == 2 ==> BigEndian(t) == 0x100 * t[0] as int + t[1] as int
    ensures |t| == 3 ==> BigEndian(t) == 0x1_0000 * t[0] as int + 0x100 * t[1] as int + t[2] as int
    ensures |t| == 4 ==> BigEndian(t) == 0x100_0000 * t[0] as int + 0x1_0000 * t[1] as int + 0x100 * t[2] as int + t[3] as int
  {
    assert BigEndian([]) == 0;
    if |t| > 1 {
      BigEndianOf(t[..|t| - 1]);
    }
  }

  predicate Small(s: seq<Byte>) {
    |s| < 0x1000_0000
  }

  function Tlv(tag: Byte, content: seq<Byte>): (s: seq<Byte>)
    requires |content| < 0x1_0000_0000
    ensures |s| <= |content| + 6
  {
    [tag] + LengthOctets(|content|) + content
  }

  /** The length in `s` and the number of octets it takes. */
  function ReadLength(s: seq<Byte>): Option<(nat, nat)> {
    if |s| == 0 then None
    else if s[0] < 0x80 then Some((s[0] as int, 1))
    else if s[0] == 0x81 && |s| >= 2 then Some((s[1] as int, 2))
    else if s[0] == 0x82 && |s| >= 3 then Some((s[1] as int * 0x100 + s[2] as int, 3))
    else if s[0] == 0x83 && |s| >= 4 then Some((s[1] as int * 0x1_0000 + s[2] as int * 0x100 + s[3] as int, 4))
    else if s[0] == 0x84 && |s| >= 5 then
      Some((s[1] as int * 0x100_0000 + s[2] as int * 0x1_0000 + s[3] as int * 0x100 + s[4] as int, 5))
    else None
  }

  /** The content of a leading object with tag `tag`, and what follows it. */
  function ReadTlv(tag: Byte, s: seq<Byte>): Option<(seq<Byte>, seq<Byte>)> {
    if |s| == 0 || s[0] != tag then None
    else
      match ReadLength(s[1..])
      case None => None
      case Some((n, k)) =>
        if 1 + k + n > |s| then None else Some((s[1 + k..1 + k + n], s[1 + k + n..]))
  }

  lemma ReadLengthOf(n: nat, rest: seq<Byte>)
    requires n < 0x1_0000_0000
    ensures ReadLength(LengthOctets(n) + rest) == Some((n, |LengthOctets(n)|))
  {
    var s := LengthOctets(n) + rest;
    if n >= 0x100_0000 {
      var a, b, c := n / 0x100, n / 0x1_0000, n / 0x100_0000;
      assert b == a / 0x100 && c == b / 0x100;
      assert n == 0x100 * a + n % 0x100 && a == 0x100 * b + a % 0x100 && b == 0x100 * c + b % 0x100;
    } else if n >= 0x1_0000 {
      var a, b := n / 0x100, n / 0x1_0000;
      assert b == a / 0x100;
      assert n == 0x100 * a + n % 0x100 && a == 0x100 * b + a % 0x100;
    }
  }

  lemma ReadTlvOf(tag: Byte, content: seq<Byte>, rest: seq<Byte>)
    requires |content| < 0x1_0000_0000
    ensures ReadTlv(tag, Tlv(tag, content) + rest) == Some((content, rest))
  {
    hide LengthOctets, ReadLength;
    var len := LengthOctets(|content|);
    var s := Tlv(tag, content) + rest;
    assert s[1..] == len + (content + rest);
    ReadLengthOf(|content|, content + rest);
    var k := |len|;
    assert s == [tag] + len + content + rest;
    assert s[1 + k..1 + k + |content|] == content;
    assert s[1 + k + |content|..] == rest;
  }

  // ---------------------------------------------------------------------------
  // SubjectPublicKeyInfo, section 2 of RFC 5480
  // ---------------------------------------------------------------------------

  datatype Algorithm = Ec(curve: seq<Byte>) | Rsa

  const EC_OID: seq<Byte> := [0x2a, 0x86, 0x48, 0xce, 0x3d, 0x02, 0x01]
  const RSA_OID: seq<Byte> := [0x2a, 0x86, 0x48, 0x86, 0xf7, 0x0d, 0x01, 0x01, 0x01]
  const P256_OID: seq<Byte> := [0x2a, 0x86, 0x48, 0xce, 0x3d, 0x03, 0x01, 0x07]
  const P384_OID: seq<Byte> := [0x2b, 0x81, 0x04, 0x00, 0x22]

  /** The arcs after the first two of an object identifier, section 8.19 of X.690: base 128,
      with the high bit on all octets of an arc but the last. */
  function Arcs(s: seq<Byte>, arc: nat): seq<nat> {
    if s == [] then []
    else if s[0] >= 0x80 then Arcs(s[1..], arc * 128 + (s[0] as int - 0x80))
    else [arc * 128 + s[0] as int] + Arcs(s[1..], 0)
  }

  /** The first octet holds the first two arcs. */
  function ObjectIdentifier(s: seq<Byte>): seq<nat>
    requires s != []
  {
    [s[0] as int / 40, s[0] as int % 40] + Arcs(s[1..], 0)
  }

  lemma ArcsStep(x: Byte, rest: seq<Byte>, arc: nat)
    ensures x >= 0x80 ==> Arcs([x] + rest, arc) == Arcs(rest, arc * 128 + (x as int - 0x80))
    ensures x < 0x80 ==> Arcs([x] + rest, arc) == [arc * 128 + x as int] + Arcs(rest, 0)
  {
    assert ([x] + rest)[1..] == rest;
  }

  /** Octets below 128 are one arc each. */
  lemma {:induction false} ShortArcs(s: seq<Byte>)
    requires forall i :: 0 <= i < |s| ==> s[i] < 0x80
    ensures |Arcs(s, 0)| == |s| && forall i :: 0 <= i < |s| ==> Arcs(s, 0)[i] == s[i]
  {
    if s != [] {
      ShortArcs(s[1..]);
    }
  }

  /** 840 */
  lemma CountryArc(rest: seq<Byte>)
    ensures Arcs([0x86, 0x48] + rest, 0) == [840] + Arcs(rest, 0)
  {
    ArcsStep(0x86, [0x48] + rest, 0);
    ArcsStep(0x48, rest, 6);
    assert [0x86] + ([0x48] + rest) == [0x86, 0x48] + rest;
  }

  /** id-ecPublicKey and secp256r1 of RFC 5480 under 1.2.840.10045, secp384r1 as 1.3.132.0.34,
      and rsaEncryption of RFC 8017 under 1.2.840.113549. */
  lemma IdentifiersAre()
    ensures ObjectIdentifier(EC_OID) == [1, 2, 840, 10045, 2, 1]
    ensures ObjectIdentifier(P256_OID) == [1, 2, 840, 10045, 3, 1, 7]
    ensures ObjectIdentifier(P384_OID) == [1, 3, 132, 0, 34]
    ensures ObjectIdentifier(RSA_OID) == [1, 2, 840, 113549, 1, 1, 1]
  {
    EcArcs();
    P256Arcs();
    P384Arcs();
    RsaArcs();
  }

  lemma EcArcs()
    ensures ObjectIdentifier(EC_OID) == [1, 2, 840, 10045, 2, 1]
  {
    hide Arcs;
    assert EC_OID[1..] == [0x86, 0x48] + ([0xce, 0x3d] + [0x02, 0x01]);
    CountryArc([0xce, 0x3d] + [0x02, 0x01]);
    X962Arc([0x02, 0x01]);
    ShortArcs([0x02, 0x01]);
    assert Arcs([0x02, 0x01], 0) == [2, 1];
  }

  lemma P256Arcs()
    ensures ObjectIdentifier(P256_OID) == [1, 2, 840, 10045, 3, 1, 7]
  {
    hide Arcs;
    assert P256_OID[1..] == [0x86, 0x48] + ([0xce, 0x3d] + [0x03, 0x01, 0x07]);
    CountryArc([0xce, 0x3d] + [0x03, 0x01, 0x07]);
    X962Arc([0x03, 0x01, 0x07]);
    ShortArcs([0x03, 0x01, 0x07]);
    assert Arcs([0x03, 0x01, 0x07], 0) == [3, 1, 7];
  }

  lemma P384Arcs()
    ensures ObjectIdentifier(P384_OID) == [1, 3, 132, 0, 34]
  {
    hide Arcs;
    assert P384_OID[1..] == [0x81, 0x04] + [0x00, 0x22];
    CerticomArc([0x00, 0x22]);
    ShortArcs([0x00, 0x22]);
    assert Arcs([0x00, 0x22], 0) == [0, 34];
  }

  lemma RsaArcs()
    ensures ObjectIdentifier(RSA_OID) == [1, 2, 840, 113549, 1, 1, 1]
  {
    hide Arcs;
    assert RSA_OID[1..] == [0x86, 0x48] + ([0x86, 0xf7, 0x0d] + [0x01, 0x01, 0x01]);
    CountryArc([0x86, 0xf7, 0x0d] + [0x01, 0x01, 0x01]);
    RsadsiArc([0x01, 0x01, 0x01]);
    ShortArcs([0x01, 0x01, 0x01]);
    assert Arcs([0x01, 0x01, 0x01], 0) == [1, 1, 1];
  }

  lemma X962Arc(rest: seq<Byte>)
    ensures Arcs([0xce, 0x3d] + rest, 0) == [10045] + Arcs(rest, 0)
  {
    ArcsStep(0xce, [0x3d] + rest, 0);
    ArcsStep(0x3d, rest, 78);
    assert [0xce] + ([0x3d] + rest) == [0xce, 0x3d] + rest;
  }

  lemma CerticomArc(rest: seq<Byte>)
    ensures Arcs([0x81, 0x04] + rest, 0) == [132] + Arcs(rest, 0)
  {
    ArcsStep(0x81, [0x04] + rest, 0);
    ArcsStep(0x04, rest, 1);
    assert [0x81] + ([0x04] + rest) == [0x81, 0x04] + rest;
  }

  lemma RsadsiArc(rest: seq<Byte>)
    ensures Arcs([0x86, 0xf7, 0x0d] + rest, 0) == [113549] + Arcs(rest, 0)
  {
    ArcsStep(0x86, [0xf7, 0x0d] + rest, 0);
    ArcsStep(0xf7, [0x0d] + rest, 6);
    ArcsStep(0x0d, rest, 887);
    assert [0x86] + ([0xf7, 0x0d] + rest) == [0x86, 0xf7, 0x0d] + rest;
    assert [0xf7] + ([0x0d] + rest) == [0xf7, 0x0d] + rest;
  }

  function AlgorithmOid(alg: Algorithm): (s: seq<Byte>)
    ensures |s| <= 9
  {
    if alg.Ec? then EC_OID else RSA_OID
  }

  predicate AlgorithmOk(alg: Algorithm) {
    alg.Ec? ==> 0 < |alg.curve| < 0x80
  }

  /** The named curve, or the NULL that the library writes for absent parameters. */
  function Parameters(alg: Algorithm): (s: seq<Byte>)
    requires AlgorithmOk(alg)
    ensures |s| < 0x86
  {
    if alg.Ec? then Tlv(OID, alg.curve) else [NULL_TAG, 0]
  }

  function AlgorithmIdentifier(alg: Algorithm): (s: seq<Byte>)
    requires AlgorithmOk(alg)
    ensures |s| < 0x100
  {
    Tlv(SEQUENCE, Tlv(OID, AlgorithmOid(alg)) + Parameters(alg))
  }

  function KeyBits(key: seq<Byte>): (s: seq<Byte>)
    requires Small(key)
    ensures |key| < |s| <= |key| + 7
  {
    Tlv(BIT_STRING, [0] + key)
  }

  function PublicKeyInfo(alg: Algorithm, key: seq<Byte>): seq<Byte>
    requires AlgorithmOk(alg) && Small(key)
  {
    Tlv(SEQUENCE, AlgorithmIdentifier(alg) + KeyBits(key))
  }

  /** Algorithm object identifier, parameters and key of a SubjectPublicKeyInfo that is all
      of `s`. */
  function Parse(s: seq<Byte>): Option<(seq<Byte>, seq<Byte>, seq<Byte>)> {
    match ReadTlv(SEQUENCE, s)
    case None => None
    case Some((body, after)) =>
      match ReadTlv(SEQUENCE, body)
      case None => None
      case Some((algorithm, bits)) =>
        match (ReadTlv(OID, algorithm), ReadTlv(BIT_STRING, bits))
        case (Some((oid, parameters)), Some((content, rest))) =>
          if after == [] && rest == [] && |content| > 0 && content[0] == 0
          then Some((oid, parameters, content[1..])) else None
        case _ => None
  }

  /** What the writer produces parses back to the algorithm, the curve and the key. */
  lemma ParsePublicKeyInfo(alg: Algorithm, key: seq<Byte>)
    requires AlgorithmOk(alg) && Small(key)
    ensures Parse(PublicKeyInfo(alg, key)) == Some((AlgorithmOid(alg), Parameters(alg), key))
  {
    hide Tlv, ReadTlv, Parameters, AlgorithmOid;
    var inner := Tlv(OID, AlgorithmOid(alg)) + Parameters(alg);
    var body := AlgorithmIdentifier(alg) + KeyBits(key);
    assert PublicKeyInfo(alg, key) + [] == PublicKeyInfo(alg, key);
    ReadTlvOf(SEQUENCE, body, []);
    ReadTlvOf(SEQUENCE, inner, KeyBits(key));
    ReadTlvOf(OID, AlgorithmOid(alg), Parameters(alg));
    assert KeyBits(key) + [] == KeyBits(key);
    ReadTlvOf(BIT_STRING, [0] + key, []);
    assert ([0] + key)[1..] == key;
  }

  /** The raw key is the tail of the object, where the key-pair generator takes it from. */
  lemma KeyIsSuffix(alg: Algorithm, key: seq<Byte>)
    requires AlgorithmOk(alg) && Small(key)
    ensures var der := PublicKeyInfo(alg, key); |der| > |key| && der[|der| - |key|..] == key
  {
    hide LengthOctets, Tlv, AlgorithmIdentifier;
    var bits, id := KeyBits(key), AlgorithmIdentifier(alg);
    assert ([0] + key)[1..] == key;
    TlvTail(BIT_STRING, [0] + key, key);
    AppendTail(id, bits, key);
    TlvTail(SEQUENCE, id + bits, key);
  }

  lemma AppendTail(a: seq<Byte>, b: seq<Byte>, tail: seq<Byte>)
    requires |tail| <= |b| && b[|b| - |tail|..] == tail
    ensures (a + b)[|a + b| - |tail|..] == tail
  {
  }

  lemma TlvTail(tag: Byte, content: seq<Byte>, tail: seq<Byte>)
    requires |tail| <= |content| < 0x1_0000_0000 && content[|content| - |tail|..] == tail
    ensures var s := Tlv(tag, content); |tail| < |s| && s[|s| - |tail|..] == tail
  {
    hide LengthOctets;
  }

  // ---------------------------------------------------------------------------
  // The backward writer
  // ---------------------------------------------------------------------------

  /** Magnitudes of the low-level library error codes that mbedtls_to_psa_error lists. */
  const LOW_LEVEL_CODES: set<int> := {
    0x02, 0x04, 0x06, 0x08, 0x0a, 0x0c, 0x0e, 0x10,  // MPI
    0x20, 0x22, 0x24,                                // AES, Camellia
    0x34, 0x36, 0x38, 0x3a, 0x3c, 0x3d, 0x40,        // CTR_DRBG, entropy
    0x60, 0x62, 0x64, 0x66, 0x68, 0x6a, 0x6c,        // ASN.1
    0x6e, 0x70, 0x72                                 // corruption, platform
  }

  /** Whether mbedtls_to_psa_error maps `ret` to PSA_SUCCESS. It looks at the low seven bits
      of the negated argument first, also when the argument is a byte count. */
  predicate MapsToSuccess(ret: int) {
    var low := (-ret) % 0x80;
    ret >= 0 && (low == 0 || low !in LOW_LEVEL_CODES)
  }

  const BUFFER_TOO_SMALL := -0x6c

  /** memcpy */
  method CopyTo(buffer: array<Byte>, at: nat, bytes: seq<Byte>)
    requires at + |bytes| <= buffer.Length
    modifies buffer
    ensures buffer[..at] == old(buffer[..at]) && buffer[at..at + |bytes|] == bytes
    ensures buffer[at + |bytes|..] == old(buffer[at + |bytes|..])
  {
    forall i | 0 <= i < |bytes| {
      buffer[at + i] := bytes[i];
    }
  }

  /** The library's backward writers: the bytes go right before `p`, or nothing does. */
  method WriteBack(buffer: array<Byte>, p: nat, bytes: seq<Byte>) returns (ret: int, q: nat)
    requires p <= buffer.Length && bytes != []
    modifies buffer
    ensures |bytes| > p ==> ret == BUFFER_TOO_SMALL && q == p && buffer[..] == old(buffer[..])
    ensures |bytes| <= p ==> ret == |bytes| && q == p - |bytes| && buffer[q..] == bytes + old(buffer[p..])
  {
    if |bytes| > p {
      return BUFFER_TOO_SMALL, p;
    }
    ret, q := |bytes|, p - |bytes|;
    CopyTo(buffer, q, bytes);
    assert buffer[q..] == buffer[q..p] + buffer[p..];
  }

  /** When xReadPublicKeyFromPSACrypto delivers a key that was exported successfully. */
  predicate Delivers(alg: Algorithm, key: seq<Byte>, maxKey: nat, capacity: nat)
    requires AlgorithmOk(alg) && Small(key)
  {
    && maxKey < capacity && |PublicKeyInfo(alg, key)| <= capacity
    && (alg.Ec? ==> MapsToSuccess(|Parameters(alg)|))
    && MapsToSuccess(|AlgorithmIdentifier(alg)|)
  }

  lemma KeyBitsIs(key: seq<Byte>)
    requires Small(key)
    ensures KeyBits(key) == [BIT_STRING] + (LengthOctets(|key| + 1) + ([0] + key))
    ensures |KeyBits(key)| == 1 + |LengthOctets(|key| + 1)| + 1 + |key|
  {
    hide LengthOctets;
  }

  /** The key part of xReadPublicKeyFromPSACrypto: the exported key at the end of the
      buffer, the unused-bits octet, its length and its tag. */
  method WriteKeyBits(buffer: array<Byte>, key: seq<Byte>) returns (ok: bool, p: nat, written: nat)
    requires Small(key) && |key| < buffer.Length
    modifies buffer
    ensures ok <==> |KeyBits(key)| <= buffer.Length
    ensures ok ==> p == buffer.Length - written && written == |KeyBits(key)| && buffer[p..] == KeyBits(key)
  {
    hide LengthOctets, KeyBits;
    KeyBitsIs(key);
    CopyTo(buffer, 0, key);
    p := buffer.Length - |key|;
    CopyTo(buffer, p, key);
    assert buffer[p..p + |key|] == buffer[p..];
    assert buffer[p..] == key;
    var ret;
    ret, p := WriteBack(buffer, p, [0]);
    written := |key| + 1;
    ret, p := WriteBack(buffer, p, LengthOctets(written));
    if ret <= 0 {
      return false, p, written;
    }
    written := written + ret;
    ret, p := WriteBack(buffer, p, [BIT_STRING]);
    if ret <= 0 {
      return false, p, written;
    }
    written := written + ret;
    ok := true;
  }

  /** The AlgorithmIdentifier part, written before the key bits. */
  method WriteAlgorithm(buffer: array<Byte>, start: nat, alg: Algorithm) returns (ok: bool, p: nat, written: nat)
    requires AlgorithmOk(alg) && start <= buffer.Length
    modifies buffer
    ensures ok <==> |AlgorithmIdentifier(alg)| <= start && (alg.Ec? ==> MapsToSuccess(|Parameters(alg)|))
                    && MapsToSuccess(|AlgorithmIdentifier(alg)|)
    ensures ok ==> p == start - written && written == |AlgorithmIdentifier(alg)|
    ensures ok ==> buffer[p..] == AlgorithmIdentifier(alg) + old(buffer[start..])
  {
    hide Tlv, MapsToSuccess;
    ghost var tail := buffer[start..];
    var inner := Tlv(OID, AlgorithmOid(alg)) + Parameters(alg);
    AlgorithmParts(alg);
    p, written := start, 0;
    var ret := 0;
    if alg.Ec? {
      ret, p := WriteBack(buffer, p, Tlv(OID, alg.curve));
      NegativeFails(ret);
      if !MapsToSuccess(ret) {
        return false, p, written;
      }
      written := ret;
    }
    // mbedtls_asn1_write_algorithm_identifier adds a NULL only when there are no parameters
    var head := [SEQUENCE] + LengthOctets(|inner|) + Tlv(OID, AlgorithmOid(alg))
                + if written == 0 then [NULL_TAG, 0] else [];
    ret, p := WriteBack(buffer, p, head);
    if ret > 0 {
      ret := ret + written;
    }
    ok := MapsToSuccess(ret);
    NegativeFails(BUFFER_TOO_SMALL);
    written := |AlgorithmIdentifier(alg)|;
    if ok {
      assert head + (if alg.Ec? then Parameters(alg) else []) == AlgorithmIdentifier(alg);
    }
  }

  lemma NegativeFails(ret: int)
    ensures ret < 0 ==> !MapsToSuccess(ret)
  {
  }

  lemma AlgorithmParts(alg: Algorithm)
    requires AlgorithmOk(alg)
    ensures var inner := Tlv(OID, AlgorithmOid(alg)) + Parameters(alg);
            AlgorithmIdentifier(alg) == [SEQUENCE] + LengthOctets(|inner|) + Tlv(OID, AlgorithmOid(alg)) + Parameters(alg)
    ensures |Parameters(alg)| > 0
  {
    var inner := Tlv(OID, AlgorithmOid(alg)) + Parameters(alg);
    assert [SEQUENCE] + LengthOctets(|inner|) + inner ==
           [SEQUENCE] + LengthOctets(|inner|) + Tlv(OID, AlgorithmOid(alg)) + Parameters(alg);
  }

  /** What the attributes of a key say: nothing or an unsupported type, an EC key with the
      identifier of its curve if the library has one, or an RSA key. */
  datatype KeyType = NoKey | EcKey(curve: Option<seq<Byte>>) | RsaKey

  function AlgorithmOf(key: KeyType): Option<Algorithm> {
    match key
    case NoKey => None
    case EcKey(curve) => if curve.Some? then Some(Ec(curve.value)) else None
    case RsaKey => Some(Rsa)
  }

  /** xReadPublicKeyFromPSACrypto. `memory` says whether the buffer of `capacity` bytes can be
      allocated, `maxKey` is the library's bound on the exported size, and `exported` is what
      the library exports, None for a failure. The octet of unused bits is written also after
      a failed export, and then goes in front of the buffer. The curve is looked up only
      after that. */
  method ReadPublicKey(key: KeyType, memory: bool, exported: Option<seq<Byte>>, maxKey: nat, capacity: nat)
    returns (der: Option<seq<Byte>>, underrun: bool)
    requires AlgorithmOf(key).Some? ==> AlgorithmOk(AlgorithmOf(key).value)
    requires exported.Some? ==> Small(exported.value) && |exported.value| <= maxKey
    ensures der.Some? <==>
            AlgorithmOf(key).Some? && memory && exported.Some? && Delivers(AlgorithmOf(key).value, exported.value, maxKey, capacity)
    ensures der.Some? ==> der.value == PublicKeyInfo(AlgorithmOf(key).value, exported.value)
    ensures underrun <==> !key.NoKey? && memory && maxKey < capacity && exported.None?
  {
    hide Tlv, MapsToSuccess, LengthOctets, AlgorithmIdentifier, KeyBits, PublicKeyInfo;
    der, underrun := None, false;
    if key.NoKey? || !memory || capacity < maxKey + 1 {
      return;
    }
    var buffer := new Byte[capacity](_ => 0);
    if exported.None? {
      underrun := true;
      return;
    }
    var ok, p, written := WriteKeyBits(buffer, exported.value);
    var alg := AlgorithmOf(key);
    if !ok || alg.None? {
      if alg.Some? {
        InfoParts(alg.value, exported.value);
      }
      return;
    }
    InfoParts(alg.value, exported.value);
    var n;
    ok, p, n := WriteAlgorithm(buffer, p, alg.value);
    if !ok {
      return;
    }
    written := written + n;
    ok, p, written := CloseSequence(buffer, p, written);
    if ok {
      der := Some(buffer[capacity - written..]);
    }
  }

  /** Length and tag of the outer sequence. A refusal never maps to success, the single
      octet of the tag always does. */
  method CloseSequence(buffer: array<Byte>, start: nat, size: nat) returns (ok: bool, p: nat, written: nat)
    requires start <= buffer.Length && size == buffer.Length - start < 0x1_0000_0000
    modifies buffer
    ensures ok <==> 1 + |LengthOctets(size)| <= start
    ensures ok ==> p == buffer.Length - written && buffer[p..] == [SEQUENCE] + LengthOctets(size) + old(buffer[start..])
  {
    hide LengthOctets, MapsToSuccess;
    OneMapsToSuccess();
    NegativeFails(BUFFER_TOO_SMALL);
    var ret;
    written := size;
    ret, p := WriteBack(buffer, start, LengthOctets(size));
    if ret > 0 {
      written := written + ret;
      ret, p := WriteBack(buffer, p, [SEQUENCE]);
      if ret > 0 {
        written := written + ret;
      }
    }
    ok := MapsToSuccess(ret);
  }

  lemma OneMapsToSuccess()
    ensures MapsToSuccess(1)
  {
  }

  lemma InfoParts(alg: Algorithm, key: seq<Byte>)
    requires AlgorithmOk(alg) && Small(key)
    ensures var body := AlgorithmIdentifier(alg) + KeyBits(key);
            PublicKeyInfo(alg, key) == [SEQUENCE] + LengthOctets(|body|) + body
    ensures |KeyBits(key)| > |key|
  {
  }

  // ---------------------------------------------------------------------------
  // Which keys get through
  // ---------------------------------------------------------------------------

  lemma IdentifierLength(alg: Algorithm)
    requires AlgorithmOk(alg) && (alg.Ec? ==> |alg.curve| < 100)
    ensures |AlgorithmIdentifier(alg)| == if alg.Ec? then 13 + |alg.curve| else 15
    ensures alg.Ec? ==> |Parameters(alg)| == 2 + |alg.curve|
  {
  }

  /** The byte counts below 128 that are taken for an error. */
  lemma CountsTakenForErrors(n: int)
    requires 0 <= n < 128
    ensures MapsToSuccess(n) <==>
            n !in {14, 16, 18, 20, 22, 24, 26, 28, 30, 32, 64, 67, 68, 70,
                   72, 74, 76, 92, 94, 96, 112, 114, 116, 118, 120, 122, 124, 126}
  {
    assert n > 0 ==> (-n) % 0x80 == 128 - n;
  }

  /** Of all curves with identifiers of at most eleven bytes, exactly those of even length get
      through. */
  lemma CurveLengths(curve: seq<Byte>, key: seq<Byte>, maxKey: nat, capacity: nat)
    requires 0 < |curve| <= 11 && Small(key) && maxKey < capacity && |PublicKeyInfo(Ec(curve), key)| <= capacity
    ensures Delivers(Ec(curve), key, maxKey, capacity) <==> |curve| % 2 == 0
  {
    hide MapsToSuccess, PublicKeyInfo;
    IdentifierLength(Ec(curve));
    CountsTakenForErrors(13 + |curve|);
    CountsTakenForErrors(2 + |curve|);
  }

  /** Every P-256 and RSA key gets through if the buffer is large enough. */
  lemma P256AndRsaDelivered(alg: Algorithm, key: seq<Byte>, maxKey: nat, capacity: nat)
    requires alg == Ec(P256_OID) || alg == Rsa
    requires Small(key) && maxKey < capacity && |PublicKeyInfo(alg, key)| <= capacity
    ensures Delivers(alg, key, maxKey, capacity)
  {
    IdentifierLength(alg);
    assert MapsToSuccess(10) && MapsToSuccess(21) && MapsToSuccess(15);
  }

  /** No key on a curve with a five-byte identifier does, P-384 among them: the 18 bytes of
      its AlgorithmIdentifier are taken for the corruption error 0x6e. */
  lemma FiveByteCurvesRefused(curve: seq<Byte>, key: seq<Byte>, maxKey: nat, capacity: nat)
    requires |curve| == 5 && Small(key)
    ensures !Delivers(Ec(curve), key, maxKey, capacity)
  {
    IdentifierLength(Ec(curve));
    assert (-18) % 0x80 == 0x6e;
  }

  /** In particular no P-384 key is ever delivered, whatever its bytes and the buffer. */
  lemma P384Refused(key: seq<Byte>, maxKey: nat, capacity: nat)
    requires Small(key)
    ensures !Delivers(Ec(P384_OID), key, maxKey, capacity)
  {
    FiveByteCurvesRefused(P384_OID, key, maxKey, capacity);
  }

  // ---------------------------------------------------------------------------
  // The export over PKCS#11
  // ---------------------------------------------------------------------------

  const P256_HEADER: seq<Byte> := [
    0x30, 0x59, 0x30, 0x13, 0x06, 0x07, 0x2a, 0x86,
    0x48, 0xce, 0x3d, 0x02, 0x01, 0x06, 0x08, 0x2a,
    0x86, 0x48, 0xce, 0x3d, 0x03, 0x01, 0x07, 0x03,
    0x42, 0x00
  ]

  /** xPrvExportPubKeyDer: the EC point attribute is read behind the place of the header,
      whose last two bytes then overwrite the attribute's own tag and length. */
  method ExportPublicKey(attribute: seq<Byte>) returns (der: seq<Byte>)
    requires |attribute| >= 2
    ensures der == P256_HEADER + attribute[2..] + [0]
  {
    assert |P256_HEADER| == 26;
    var n := |attribute| + |P256_HEADER| - 2 + 1;
    var buffer := new Byte[n](_ => 0);
    CopyTo(buffer, |P256_HEADER| - 2, attribute);
    assert buffer[n - 1..] == [0];
    ghost var body := buffer[26..];
    assert body == attribute[2..] + [0] by {
      assert buffer[24..] == buffer[24..24 + |attribute|] + buffer[n - 1..];
      assert body == buffer[24..][2..];
    }
    CopyTo(buffer, 0, P256_HEADER);
    assert buffer[..] == buffer[0..26] + buffer[26..];
    der := buffer[..];
  }

  const P256_IDENTIFIER: seq<Byte> := [
    0x30, 0x13, 0x06, 0x07, 0x2a, 0x86, 0x48, 0xce, 0x3d, 0x02, 0x01,
    0x06, 0x08, 0x2a, 0x86, 0x48, 0xce, 0x3d, 0x03, 0x01, 0x07
  ]

  lemma ShortTlv(tag: Byte, content: seq<Byte>, n: Byte)
    requires |content| == n < 0x80
    ensures Tlv(tag, content) == [tag, n] + content
  {
  }

  lemma IdentifierParts()
    ensures P256_IDENTIFIER == [SEQUENCE, 0x13] + ([OID, 7] + EC_OID + ([OID, 8] + P256_OID))
  {
  }

  lemma P256Identifier()
    ensures AlgorithmIdentifier(Ec(P256_OID)) == P256_IDENTIFIER
  {
    hide Tlv;
    ShortTlv(OID, EC_OID, 7);
    ShortTlv(OID, P256_OID, 8);
    ShortTlv(SEQUENCE, [OID, 7] + EC_OID + ([OID, 8] + P256_OID), 0x13);
    IdentifierParts();
  }

  /** The identifier that every RSA key gets, octet by octet. */
  lemma RsaIdentifier()
    ensures AlgorithmIdentifier(Rsa) ==
            [0x30, 0x0d, 0x06, 0x09, 0x2a, 0x86, 0x48, 0x86, 0xf7, 0x0d, 0x01, 0x01, 0x01, 0x05, 0x00]
  {
    hide Tlv;
    ShortTlv(OID, RSA_OID, 9);
    ShortTlv(SEQUENCE, [OID, 9] + RSA_OID + [NULL_TAG, 0], 0x0d);
  }

  lemma HeaderParts()
    ensures P256_HEADER == [SEQUENCE, 0x59] + P256_IDENTIFIER + [BIT_STRING, 0x42, 0]
  {
  }

  /** For every 65-byte point the two exports agree, except that the one over PKCS#11
      reports one more byte, which is zero. */
  lemma ExportsAgree(point: seq<Byte>)
    requires |point| == 65
    ensures P256_HEADER + point == PublicKeyInfo(Ec(P256_OID), point)
    ensures |PublicKeyInfo(Ec(P256_OID), point)| == 91
  {
    P256Identifier();
    HeaderParts();
    Assemble(P256_IDENTIFIER, P256_HEADER, point);
  }

  lemma Assemble(id: seq<Byte>, header: seq<Byte>, point: seq<Byte>)
    requires |point| == 65 && |id| == 21 && AlgorithmIdentifier(Ec(P256_OID)) == id
    requires header == [SEQUENCE, 0x59] + id + [BIT_STRING, 0x42, 0]
    ensures header + point == PublicKeyInfo(Ec(P256_OID), point)
    ensures |PublicKeyInfo(Ec(P256_OID), point)| == 91
  {
    hide AlgorithmIdentifier;
    assert LengthOctets(66) == [0x42] && LengthOctets(89) == [0x59];
    assert KeyBits(point) == [BIT_STRING, 0x42, 0] + point;
    assert PublicKeyInfo(Ec(P256_OID), point) == [SEQUENCE, 0x59] + (id + ([BIT_STRING, 0x42, 0] + point));
  }
}
