/** ECC private keys (section 3 of RFC 5915) and public keys (section 2 of RFC 5480) in DER
    (core/asn1/ecc_der_util.c). */
module EccKeys {
  import opened Bytes
  import opened Wrappers
  import opened Der
  import opened EccDer
  import Asn1Util

  datatype Curve = P256 | P384 | P521

  function KeyLength(c: Curve): nat {
    match c
    case P256 => 32
    case P384 => 48
    case P521 => 66
  }

  function CurveFor(keyLength: nat): (c: Option<Curve>)
    ensures c.Some? ==> KeyLength(c.value) == keyLength
  {
    match keyLength
    case 32 => Some(P256)
    case 48 => Some(P384)
    case 66 => Some(P521)
    case _ => None
  }

  function Oid(c: Curve): (s: seq<byte>)
    ensures |s| == if c == P256 then 8 else 5
  {
    match c
    case P256 => [0x2a, 0x86, 0x48, 0xce, 0x3d, 0x03, 0x01, 0x07]
    case P384 => [0x2b, 0x81, 0x04, 0x00, 0x22]
    case P521 => [0x2b, 0x81, 0x04, 0x00, 0x23]
  }

  const EC_PUBLIC_KEY_OID: seq<byte> := [0x2a, 0x86, 0x48, 0xce, 0x3d, 0x02, 0x01]
  const PARAMETERS: byte := 0xa0
  const PUBLIC_KEY: byte := 0xa1

  /** The uncompressed point in a BIT STRING with no unused bits. */
  function PointContent(x: seq<byte>, y: seq<byte>): seq<byte> { [0x00, 0x04] + x + y }

  predicate IsPoint(c: Curve, x: seq<byte>, y: seq<byte>) {
    |x| == KeyLength(c) && |y| == KeyLength(c)
  }

  datatype Point = Point(x: seq<byte>, y: seq<byte>)

  function PublicPart(pub: Option<Point>): seq<byte>
    requires pub.Some? ==> |pub.value.x| <= 66 && |pub.value.y| <= 66
  {
    if pub.Some? then Tlv(PUBLIC_KEY, Tlv(BIT_STRING, PointContent(pub.value.x, pub.value.y))) else []
  }

  /** ECPrivateKey contents: version 1, the key octets, the curve and optionally the public key. */
  function PrivateBody(c: Curve, octets: seq<byte>, pub: Option<Point>): seq<byte>
    requires |octets| <= 67 && (pub.Some? ==> |pub.value.x| <= 66 && |pub.value.y| <= 66)
  {
    Tlv(INTEGER, [1]) + Tlv(OCTET_STRING, octets) + Tlv(PARAMETERS, Tlv(OBJECT_IDENTIFIER, Oid(c))) + PublicPart(pub)
  }

  /** A private key with its octets written as given. */
  function PrivateForm(c: Curve, octets: seq<byte>, pub: Option<Point>): seq<byte>
    requires |octets| <= 67 && (pub.Some? ==> |pub.value.x| <= 66 && |pub.value.y| <= 66)
  {
    Tlv(SEQUENCE, PrivateBody(c, octets, pub))
  }

  predicate ValidPub(c: Curve, pub: Option<Point>) {
    pub.Some? ==> IsPoint(c, pub.value.x, pub.value.y)
  }

  function PublicBody(c: Curve, p: Point): seq<byte>
    requires IsPoint(c, p.x, p.y)
  {
    Tlv(SEQUENCE, Tlv(OBJECT_IDENTIFIER, EC_PUBLIC_KEY_OID) + Tlv(OBJECT_IDENTIFIER, Oid(c)))
    + Tlv(BIT_STRING, PointContent(p.x, p.y))
  }

  /** SubjectPublicKeyInfo. */
  function PublicForm(c: Curve, p: Point): seq<byte>
    requires IsPoint(c, p.x, p.y)
  {
    Tlv(SEQUENCE, PublicBody(c, p))
  }

  // The octets, by their values

  /** The arcs of an OBJECT IDENTIFIER after the first two, in base 128 with the top bit marking continuation
      (X.690 section 8.19). */
  function Arcs(s: seq<byte>, sofar: nat): seq<nat>
    decreases |s|
  {
    if s == [] then []
    else if s[0] >= 0x80 then Arcs(s[1..], 128 * sofar + s[0] % 128)
    else [128 * sofar + s[0]] + Arcs(s[1..], 0)
  }

  function OidArcs(s: seq<byte>): seq<nat>
    requires |s| > 0
  {
    [(s[0] / 40) as int, (s[0] % 40) as int] + Arcs(s[1..], 0)
  }

  lemma ArcContinues(b: byte, rest: seq<byte>, sofar: nat)
    requires b >= 0x80
    ensures Arcs([b] + rest, sofar) == Arcs(rest, 128 * sofar + b % 128)
  {
    assert ([b] + rest)[1..] == rest;
  }

  lemma ArcEnds(b: byte, rest: seq<byte>, sofar: nat)
    requires b < 0x80
    ensures Arcs([b] + rest, sofar) == [128 * sofar + b] + Arcs(rest, 0)
  {
    assert ([b] + rest)[1..] == rest;
  }

  /** The curves and the algorithm by their registered names: prime256v1, secp384r1, secp521r1 and ecPublicKey of
      section 2.1.1 of RFC 5480. */
  lemma OidsAreRegistered()
    ensures OidArcs(Oid(P256)) == [1, 2, 840, 10045, 3, 1, 7]
    ensures OidArcs(Oid(P384)) == [1, 3, 132, 0, 34]
    ensures OidArcs(Oid(P521)) == [1, 3, 132, 0, 35]
    ensures OidArcs(EC_PUBLIC_KEY_OID) == [1, 2, 840, 10045, 2, 1]
  {
    hide Arcs;
    var end3: seq<byte> := [0x03] + ([0x01] + ([0x07] + []));
    var end2: seq<byte> := [0x02] + ([0x01] + []);
    assert Oid(P256)[1..] == [0x86] + ([0x48] + ([0xce] + ([0x3d] + end3)));
    assert EC_PUBLIC_KEY_OID[1..] == [0x86] + ([0x48] + ([0xce] + ([0x3d] + end2)));
    AnsiArcs(end3);
    AnsiArcs(end2);
    NoArcs();
    ArcEnds(0x03, [0x01] + ([0x07] + []), 0);
    ArcEnds(0x01, [0x07] + [], 0);
    ArcEnds(0x07, [], 0);
    ArcEnds(0x02, [0x01] + [], 0);
    ArcEnds(0x01, [], 0);
    assert Oid(P384)[1..] == [0x81] + ([0x04] + ([0x00] + ([0x22] + [])));
    assert Oid(P521)[1..] == [0x81] + ([0x04] + ([0x00] + ([0x23] + [])));
    CerticomArcs(0x22);
    CerticomArcs(0x23);
  }

  lemma NoArcs()
    ensures Arcs([], 0) == []
  {
  }

  lemma AnsiArcs(rest: seq<byte>)
    ensures Arcs([0x86] + ([0x48] + ([0xce] + ([0x3d] + rest))), 0) == [840] + ([10045] + Arcs(rest, 0))
  {
    hide Arcs;
    ArcContinues(0x86, [0x48] + ([0xce] + ([0x3d] + rest)), 0);
    ArcEnds(0x48, [0xce] + ([0x3d] + rest), 6);
    ArcContinues(0xce, [0x3d] + rest, 0);
    ArcEnds(0x3d, rest, 78);
  }

  lemma CerticomArcs(last: byte)
    requires last < 0x80
    ensures Arcs([0x81] + ([0x04] + ([0x00] + ([last] + []))), 0) == [132, 0, last as int]
  {
    hide Arcs;
    NoArcs();
    ArcContinues(0x81, [0x04] + ([0x00] + ([last] + [])), 0);
    ArcEnds(0x04, [0x00] + ([last] + []), 1);
    ArcEnds(0x00, [last] + [], 0);
    ArcEnds(last, [], 0);
  }

  lemma TlvOctets(tag: byte, content: seq<byte>)
    requires |content| < 256
    ensures Tlv(tag, content) == (if |content| < 0x80 then [tag, |content|] else [tag, 0x81, |content|]) + content
  {
    HeaderShape(tag, |content|);
  }

  /** The header octets of an item with n bytes of contents. */
  function HeaderOctets(tag: byte, n: nat): (h: seq<byte>)
    requires n < 256
  {
    if n < 0x80 then [tag, n] else [tag, 0x81, n]
  }

  /** A public key, octet by octet: the numbers after each header are the three curves'. */
  lemma PublicFormOctets(c: Curve, p: Point)
    requires IsPoint(c, p.x, p.y)
    ensures PublicForm(c, p)
            == HeaderOctets(0x30, match c case P256 => 0x59 case P384 => 0x76 case P521 => 0x9b)
               + (HeaderOctets(0x30, if c == P256 then 0x13 else 0x10)
                  + ([0x06, 0x07] + [0x2a, 0x86, 0x48, 0xce, 0x3d, 0x02, 0x01] + ([0x06, |Oid(c)|] + Oid(c)))
                  + (HeaderOctets(0x03, match c case P256 => 0x42 case P384 => 0x62 case P521 => 0x86)
                     + ([0x00, 0x04] + p.x + p.y)))
  {
    hide Tlv, Oid;
    PublicLengthIs(c, p);
    TlvOctets(0x06, EC_PUBLIC_KEY_OID);
    TlvOctets(0x06, Oid(c));
    TlvOctets(0x30, Tlv(0x06, EC_PUBLIC_KEY_OID) + Tlv(0x06, Oid(c)));
    TlvOctets(0x03, PointContent(p.x, p.y));
    TlvOctets(0x30, PublicBody(c, p));
  }

  /** A private key, octet by octet. */
  lemma PrivateFormOctets(c: Curve, d: seq<byte>, pub: Option<Point>)
    requires |d| == KeyLength(c) && ValidPub(c, pub)
    ensures PrivateForm(c, d, pub)
            == HeaderOctets(0x30, match c
                                  case P256 => if pub.None? then 0x31 else 0x77
                                  case P384 => if pub.None? then 0x3e else 0xa4
                                  case P521 => if pub.None? then 0x50 else 0xdc)
               + ([0x02, 0x01] + [0x01]
                  + ([0x04, match c case P256 => 0x20 case P384 => 0x30 case P521 => 0x42] + d)
                  + ([0xa0, |Oid(c)| + 2] + ([0x06, |Oid(c)|] + Oid(c)))
                  + PublicPartOctets(c, pub))
  {
    hide Tlv, Oid, PublicPart, PublicPartOctets;
    PrivateLengthIs(c, d, pub);
    BodyLengths(c, d, pub);
    PublicPartIs(c, pub);
    TlvOctets(0x02, [1]);
    TlvOctets(0x04, d);
    TlvOctets(0x06, Oid(c));
    TlvOctets(0xa0, Tlv(0x06, Oid(c)));
    TlvOctets(0x30, PrivateBody(c, d, pub));
  }

  lemma PublicPartIs(c: Curve, pub: Option<Point>)
    requires ValidPub(c, pub)
    ensures PublicPart(pub) == PublicPartOctets(c, pub)
  {
    hide Tlv;
    if pub.Some? {
      TlvOctets(0x03, PointContent(pub.value.x, pub.value.y));
      TlvOctets(0xa1, Tlv(0x03, PointContent(pub.value.x, pub.value.y)));
    }
  }

  function PublicPartOctets(c: Curve, pub: Option<Point>): seq<byte> {
    if pub.None? then []
    else
      HeaderOctets(0xa1, match c case P256 => 0x44 case P384 => 0x64 case P521 => 0x89)
      + (HeaderOctets(0x03, match c case P256 => 0x42 case P384 => 0x62 case P521 => 0x86)
         + ([0x00, 0x04] + pub.value.x + pub.value.y))
  }

  // Lengths

  lemma TlvLength(tag: byte, content: seq<byte>)
    requires |content| < 256
    ensures |Tlv(tag, content)| == |content| + (if |content| < 0x80 then 2 else 3)
  {
    HeaderShape(tag, |content|);
  }

  lemma BodyLengths(c: Curve, octets: seq<byte>, pub: Option<Point>)
    requires |octets| <= 67 && ValidPub(c, pub)
    ensures |Tlv(INTEGER, [1])| == 3 && |Tlv(OCTET_STRING, octets)| == 2 + |octets|
    ensures |Tlv(PARAMETERS, Tlv(OBJECT_IDENTIFIER, Oid(c)))| == 4 + |Oid(c)|
    ensures |PublicPart(pub)| == if pub.None? then 0 else 2 * KeyLength(c) + (if c == P521 then 8 else 6)
    ensures |PrivateBody(c, octets, pub)| == 9 + |octets| + |Oid(c)| + |PublicPart(pub)| < 256
  {
    hide Tlv;
    TlvLength(INTEGER, [1]);
    TlvLength(OCTET_STRING, octets);
    TlvLength(OBJECT_IDENTIFIER, Oid(c));
    TlvLength(PARAMETERS, Tlv(OBJECT_IDENTIFIER, Oid(c)));
    if pub.Some? {
      var content := PointContent(pub.value.x, pub.value.y);
      TlvLength(BIT_STRING, content);
      TlvLength(PUBLIC_KEY, Tlv(BIT_STRING, content));
    }
  }

  /** ECC_DER_P*_PRIVATE_LENGTH and ECC_DER_P*_PRIVATE_NO_PUB_LENGTH. */
  function PrivateLength(c: Curve, withPublic: bool): nat {
    if withPublic then KeyLength(c) * 3 + (if c == P384 then 23 else 25)
    else KeyLength(c) + (if c == P256 then 19 else 16)
  }

  lemma PrivateLengthIs(c: Curve, d: seq<byte>, pub: Option<Point>)
    requires |d| == KeyLength(c) && ValidPub(c, pub)
    ensures |PrivateForm(c, d, pub)| == PrivateLength(c, pub.Some?)
    ensures |PrivateBody(c, d, pub)| < 256
    ensures |PrivateBody(c, d, pub)| >= 0x80 <==> pub.Some? && KeyLength(c) > 32
  {
    hide PrivateBody;
    BodyLengths(c, d, pub);
    TlvLength(SEQUENCE, PrivateBody(c, d, pub));
  }

  /** ECC_DER_P*_PUBLIC_LENGTH. */
  function PublicLength(c: Curve): nat {
    KeyLength(c) * 2 + (match c case P256 => 27 case P384 => 24 case P521 => 26)
  }

  lemma PublicLengthIs(c: Curve, p: Point)
    requires IsPoint(c, p.x, p.y)
    ensures |PublicForm(c, p)| == PublicLength(c) == |PublicBody(c, p)| + (if c == P521 then 3 else 2)
    ensures |PublicBody(c, p)| < 256
    ensures |PublicBody(c, p)| >= 0x80 <==> c == P521
    ensures |Tlv(OBJECT_IDENTIFIER, EC_PUBLIC_KEY_OID) + Tlv(OBJECT_IDENTIFIER, Oid(c))|
            == if c == P256 then 0x13 else 0x10
    ensures |Tlv(BIT_STRING, PointContent(p.x, p.y))| == 2 * KeyLength(c) + (if c == P521 then 5 else 4)
  {
    hide Tlv;
    TlvLength(OBJECT_IDENTIFIER, EC_PUBLIC_KEY_OID);
    TlvLength(OBJECT_IDENTIFIER, Oid(c));
    TlvLength(SEQUENCE, Tlv(OBJECT_IDENTIFIER, EC_PUBLIC_KEY_OID) + Tlv(OBJECT_IDENTIFIER, Oid(c)));
    TlvLength(BIT_STRING, PointContent(p.x, p.y));
    TlvLength(SEQUENCE, PublicBody(c, p));
  }

  // Encoding

  /** One more tag after what has been written at the start of the buffer. */
  method Emit(tag: byte, typeLen: nat, data: Option<seq<byte>>, der: array<byte>, pos: nat, len: nat,
              ghost was: seq<byte>, ghost done: seq<byte>)
    returns (ok: bool, pos': nat, len': nat)
    requires typeLen < 256 && (data.Some? ==> |data.value| == typeLen)
    requires pos == |done| && pos + len <= der.Length == |was| && der[..] == Splice(was, 0, done)
    modifies der
    ensures ok == (len >= 3 && (data.Some? ==> len >= |Header(tag, typeLen)| + typeLen))
    ensures ok ==>
              var w := Header(tag, typeLen) + (if data.Some? then data.value else []);
              && der[..] == Splice(was, 0, done + w) && pos' == |done + w| && pos' + len' == pos + len
    ensures OutsideUnchanged(was, der[..], 0, pos + len)
  {
    hide Splice, OutsideUnchanged, Header;
    ok, pos', len' := AddNextTag(tag, typeLen, data, der, pos, len);
    OutsideAfterSplice(was, 0, done, der[..], pos + len);
    if ok {
      SpliceAppend(was, 0, done, Header(tag, typeLen) + (if data.Some? then data.value else []));
    }
  }

  /** ecc_der_encode_public_key_bit_string. */
  method EmitPoint(x: seq<byte>, y: seq<byte>, der: array<byte>, pos: nat, len: nat,
                   ghost was: seq<byte>, ghost done: seq<byte>)
    returns (ok: bool, pos': nat, len': nat)
    requires |x| == |y| && 1 <= |x| <= 66
    requires pos == |done| && pos + len <= der.Length == |was| && der[..] == Splice(was, 0, done)
    modifies der
    ensures var w := Tlv(BIT_STRING, PointContent(x, y));
            && ok == (len >= |w|)
            && (ok ==> der[..] == Splice(was, 0, done + w) && pos' == |done + w| && pos' + len' == pos + len)
    ensures OutsideUnchanged(was, der[..], 0, pos + len)
  {
    hide Splice, OutsideUnchanged;
    var content := PointContent(x, y);
    HeaderShape(BIT_STRING, |content|);
    ghost var header := Header(BIT_STRING, |content|);
    ok, pos', len' := Emit(BIT_STRING, |x| * 2 + 2, None, der, pos, len, was, done);
    if !ok {
      return;
    }
    assert done + (header + []) == done + header;
    if len' < 2 + |x| * 2 {
      ok := false;
      return;
    }
    SpliceAppend(was, 0, done + header, content);
    SpliceStaysInside(was, 0, done + header + content, pos + len);
    assert done + header + content == done + Tlv(BIT_STRING, content);
    CopyInto(der, pos', content);
    pos', len' := pos' + |content|, len' - |content|;
  }

  /** Patching the outer length: from the placeholder header to the real one. */
  lemma PatchHeader(was: seq<byte>, now: seq<byte>, first: seq<byte>, body: seq<byte>)
    requires |body| < 256 && first == Header(SEQUENCE, if |body| < 0x80 then 0 else 0x80)
    requires |first| + |body| <= |was| && now == Splice(was, 0, first + body)
    ensures 2 <= |first| <= 3
    ensures now[|first| - 1 := |body|] == Splice(was, 0, Tlv(SEQUENCE, body))
  {
    hide Splice, Header;
    HeaderShape(SEQUENCE, |body|);
    HeaderShape(SEQUENCE, 0);
    HeaderShape(SEQUENCE, 0x80);
    assert first[|first| - 1 := |body|] == Header(SEQUENCE, |body|);
    assert (first + body)[|first| - 1 := |body|] == first[|first| - 1 := |body|] + body;
    SpliceUpdate(was, 0, first + body, |first| - 1, |body|);
  }

  /** ecc_der_encode_private_key.  The public key is written only when both coordinates are given. */
  method EncodePrivateKey(d: seq<byte>, x: Option<seq<byte>>, y: Option<seq<byte>>, der: array<byte>, length: nat)
    returns (r: Result<nat, DerError>)
    requires length <= der.Length
    requires (x.Some? ==> |x.value| == |d|) && (y.Some? ==> |y.value| == |d|)
    modifies der
    ensures CurveFor(|d|) == None ==> r == Err(UnsupportedKeyLength) && der[..] == old(der[..])
    ensures CurveFor(|d|).Some? ==>
              var pub := if x.Some? && y.Some? then Some(Point(x.value, y.value)) else None;
              var c := CurveFor(|d|).value;
              && r == (if length >= PrivateLength(c, pub.Some?) then Ok(PrivateLength(c, pub.Some?))
                       else Err(SmallDerBuffer))
              && (r.Ok? ==> |PrivateForm(c, d, pub)| == PrivateLength(c, pub.Some?)
                            && der[..] == Splice(old(der[..]), 0, PrivateForm(c, d, pub)))
    ensures OutsideUnchanged(old(der[..]), der[..], 0, length)
  {
    hide Splice, OutsideUnchanged, Tlv, Header, PrivateForm;
    ghost var was := der[..];
    SpliceNothing(was, 0);
    SpliceStaysInside(was, 0, [], length);
    var curve := CurveFor(|d|);
    if curve.None? {
      return Err(UnsupportedKeyLength);
    }
    var c := curve.value;
    var oid := Oid(c);
    var withPublic := x.Some? && y.Some?;
    ghost var pub := if withPublic then Some(Point(x.value, y.value)) else None;
    ghost var body := PrivateBody(c, d, pub);
    PrivateLengthIs(c, d, pub);
    BodyLengths(c, d, pub);
    PrivateFormIs(c, d, pub);

    var hasPubKey, seqHdrLen := 0, 2;
    if withPublic && |d| > 32 {
      hasPubKey, seqHdrLen := 0x80, 3;
    }
    HeaderShape(SEQUENCE, hasPubKey);
    ghost var first := Header(SEQUENCE, hasPubKey);
    var ok, pos, len := Emit(SEQUENCE, hasPubKey, None, der, 0, length, was, []);
    if !ok {
      return Err(SmallDerBuffer);
    }
    assert [] + (first + []) == first;
    ok, pos, len := EmitBody(c, d, x, y, der, pos, len, was, first);
    if !ok {
      return Err(SmallDerBuffer);
    }
    assert body == PrivateBody(c, d, pub);
    PatchHeader(was, der[..], first, body);
    var bodyLen := pos - seqHdrLen;
    assert bodyLen == |body|;
    ghost var patched := der[..][seqHdrLen - 1 := bodyLen];
    der[seqHdrLen - 1] := bodyLen % 256;
    assert der[..] == patched;
    SpliceStaysInside(was, 0, PrivateForm(c, d, pub), length);
    r := Ok(der[seqHdrLen - 1] + seqHdrLen);
  }

  lemma PrivateFormIs(c: Curve, d: seq<byte>, pub: Option<Point>)
    requires |d| == KeyLength(c) && ValidPub(c, pub)
    ensures PrivateForm(c, d, pub) == Tlv(SEQUENCE, PrivateBody(c, d, pub))
  {
  }

  /** Everything after the outer header. */
  method EmitBody(c: Curve, d: seq<byte>, x: Option<seq<byte>>, y: Option<seq<byte>>, der: array<byte>, pos: nat,
                  len: nat, ghost was: seq<byte>, ghost first: seq<byte>)
    returns (ok: bool, pos': nat, len': nat)
    requires |d| == KeyLength(c) && (x.Some? ==> |x.value| == |d|) && (y.Some? ==> |y.value| == |d|)
    requires pos == |first| && pos + len <= der.Length == |was| && der[..] == Splice(was, 0, first)
    modifies der
    ensures var pub := if x.Some? && y.Some? then Some(Point(x.value, y.value)) else None;
            var body := PrivateBody(c, d, pub);
            && ok == (len >= |body|)
            && (ok ==> der[..] == Splice(was, 0, first + body) && pos' == |first + body| && pos' + len' == pos + len)
    ensures OutsideUnchanged(was, der[..], 0, pos + len)
  {
    hide Splice, OutsideUnchanged, Tlv, Header;
    ghost var pub := if x.Some? && y.Some? then Some(Point(x.value, y.value)) else None;
    ghost var done := first;
    BodyLengths(c, d, pub);
    TlvIs(INTEGER, [1]);
    ok, pos', len' := Emit(INTEGER, 1, Some([1]), der, pos, len, was, done);
    if !ok {
      return;
    }
    done := done + Tlv(INTEGER, [1]);
    TlvIs(OCTET_STRING, d);
    ok, pos', len' := Emit(OCTET_STRING, |d|, Some(d), der, pos', len', was, done);
    if !ok {
      return;
    }
    done := done + Tlv(OCTET_STRING, d);
    var oid := Oid(c);
    TlvIs(OBJECT_IDENTIFIER, oid);
    TlvIs(PARAMETERS, Tlv(OBJECT_IDENTIFIER, oid));
    ok, pos', len' := Emit(PARAMETERS, |oid| + 2, None, der, pos', len', was, done);
    if !ok {
      return;
    }
    ghost var header := Header(PARAMETERS, |oid| + 2);
    assert header + [] == header;
    ok, pos', len' := Emit(OBJECT_IDENTIFIER, |oid|, Some(oid), der, pos', len', was, done + header);
    if !ok {
      return;
    }
    assert done + header + Tlv(OBJECT_IDENTIFIER, oid) == done + Tlv(PARAMETERS, Tlv(OBJECT_IDENTIFIER, oid));
    done := done + Tlv(PARAMETERS, Tlv(OBJECT_IDENTIFIER, oid));
    if x.Some? && y.Some? {
      ok, pos', len' := EmitPublic(c, x.value, y.value, der, pos', len', was, done);
      if !ok {
        return;
      }
    }
    assert done + [] == done;
    PrivateBodyIs(c, d, pub, first);
  }

  lemma TlvIs(tag: byte, content: seq<byte>)
    requires |content| < 256
    ensures Tlv(tag, content) == Header(tag, |content|) + content
    ensures |Header(tag, |content|)| == if |content| < 0x80 then 2 else 3
  {
  }

  lemma PrivateBodyIs(c: Curve, d: seq<byte>, pub: Option<Point>, first: seq<byte>)
    requires |d| == KeyLength(c) && ValidPub(c, pub)
    ensures first + PrivateBody(c, d, pub)
            == first + Tlv(INTEGER, [1]) + Tlv(OCTET_STRING, d) + Tlv(PARAMETERS, Tlv(OBJECT_IDENTIFIER, Oid(c)))
               + PublicPart(pub)
  {
    hide Tlv;
  }

  /** The optional public key, with one length octet or two. */
  method EmitPublic(c: Curve, x: seq<byte>, y: seq<byte>, der: array<byte>, pos: nat, len: nat,
                    ghost was: seq<byte>, ghost done: seq<byte>)
    returns (ok: bool, pos': nat, len': nat)
    requires IsPoint(c, x, y)
    requires pos == |done| && pos + len <= der.Length == |was| && der[..] == Splice(was, 0, done)
    modifies der
    ensures var w := PublicPart(Some(Point(x, y)));
            && ok == (len >= |w|)
            && (ok ==> der[..] == Splice(was, 0, done + w) && pos' == |done + w| && pos' + len' == pos + len)
    ensures OutsideUnchanged(was, der[..], 0, pos + len)
  {
    hide Splice, OutsideUnchanged, Tlv, Header;
    ghost var bits := Tlv(BIT_STRING, PointContent(x, y));
    TlvLength(BIT_STRING, PointContent(x, y));
    TlvIs(PUBLIC_KEY, bits);
    var wrapped := if |x| != 66 then |x| * 2 + 4 else |x| * 2 + 5;
    ok, pos', len' := Emit(PUBLIC_KEY, wrapped, None, der, pos, len, was, done);
    if !ok {
      return;
    }
    ghost var header := Header(PUBLIC_KEY, |bits|);
    assert done + (header + []) == done + header;
    ok, pos', len' := EmitPoint(x, y, der, pos', len', was, done + header);
    assert done + header + bits == done + (header + bits);
  }

  /** ecc_der_encode_public_key. */
  method EncodePublicKey(x: seq<byte>, y: seq<byte>, der: array<byte>, length: nat) returns (r: Result<nat, DerError>)
    requires |x| == |y| && length <= der.Length
    modifies der
    ensures CurveFor(|x|) == None ==> r == Err(UnsupportedKeyLength) && der[..] == old(der[..])
    ensures CurveFor(|x|).Some? ==>
              var c := CurveFor(|x|).value;
              && r == (if length >= PublicLength(c) then Ok(PublicLength(c)) else Err(SmallDerBuffer))
              && (r.Ok? ==> |PublicForm(c, Point(x, y))| == PublicLength(c)
                            && der[..] == Splice(old(der[..]), 0, PublicForm(c, Point(x, y))))
    ensures OutsideUnchanged(old(der[..]), der[..], 0, length)
  {
    hide Splice, OutsideUnchanged, Tlv, Header;
    ghost var was := der[..];
    SpliceNothing(was, 0);
    SpliceStaysInside(was, 0, [], length);
    var curve := CurveFor(|x|);
    if curve.None? {
      return Err(UnsupportedKeyLength);
    }
    var c := curve.value;
    ghost var body := PublicBody(c, Point(x, y));
    PublicLengthIs(c, Point(x, y));
    var seqHdrLen := if c == P521 then 3 else 2;
    var placeholder := if seqHdrLen == 2 then 0 else 0x80;
    HeaderShape(SEQUENCE, placeholder);
    ghost var first := Header(SEQUENCE, placeholder);
    var ok, pos, len := Emit(SEQUENCE, placeholder, None, der, 0, length, was, []);
    if !ok {
      return Err(SmallDerBuffer);
    }
    assert [] + (first + []) == first;
    ok, pos, len := EmitPublicBody(c, x, y, der, pos, len, was, first);
    if !ok {
      return Err(SmallDerBuffer);
    }
    PatchHeader(was, der[..], first, body);
    var bodyLen := pos - seqHdrLen;
    assert bodyLen == |body|;
    ghost var patched := der[..][seqHdrLen - 1 := bodyLen];
    der[seqHdrLen - 1] := bodyLen % 256;
    assert der[..] == patched;
    SpliceStaysInside(was, 0, PublicForm(c, Point(x, y)), length);
    r := Ok(der[seqHdrLen - 1] + seqHdrLen);
  }

  method EmitPublicBody(c: Curve, x: seq<byte>, y: seq<byte>, der: array<byte>, pos: nat, len: nat,
                        ghost was: seq<byte>, ghost first: seq<byte>)
    returns (ok: bool, pos': nat, len': nat)
    requires IsPoint(c, x, y)
    requires pos == |first| && pos + len <= der.Length == |was| && der[..] == Splice(was, 0, first)
    modifies der
    ensures var body := PublicBody(c, Point(x, y));
            && ok == (len >= |body|)
            && (ok ==> der[..] == Splice(was, 0, first + body) && pos' == |first + body| && pos' + len' == pos + len)
    ensures OutsideUnchanged(was, der[..], 0, pos + len)
  {
    hide Splice, OutsideUnchanged, Tlv, Header;
    var oid := Oid(c);
    ghost var a, b := Tlv(OBJECT_IDENTIFIER, EC_PUBLIC_KEY_OID), Tlv(OBJECT_IDENTIFIER, oid);
    ghost var bits := Tlv(BIT_STRING, PointContent(x, y));
    PublicLengthIs(c, Point(x, y));
    TlvIs(OBJECT_IDENTIFIER, EC_PUBLIC_KEY_OID);
    TlvIs(OBJECT_IDENTIFIER, oid);
    TlvIs(SEQUENCE, a + b);
    var algoLen := if c == P256 then 0x13 else 0x10;
    ghost var header := Header(SEQUENCE, algoLen);
    ok, pos', len' := Emit(SEQUENCE, algoLen, None, der, pos, len, was, first);
    if !ok {
      return;
    }
    assert header + [] == header;
    ghost var done := first + header;
    ok, pos', len' := Emit(OBJECT_IDENTIFIER, |EC_PUBLIC_KEY_OID|, Some(EC_PUBLIC_KEY_OID), der, pos', len', was, done);
    if !ok {
      return;
    }
    done := done + a;
    ok, pos', len' := Emit(OBJECT_IDENTIFIER, |oid|, Some(oid), der, pos', len', was, done);
    if !ok {
      return;
    }
    done := done + b;
    ok, pos', len' := EmitPoint(x, y, der, pos', len', was, done);
    assert done + bits == first + PublicBody(c, Point(x, y));
  }

  // Decoding private keys

  /** Key octets found in a private key: the key itself, its curve, and whether a zero was dropped in front of it. */
  datatype KeyOctets = KeyOctets(key: seq<byte>, curve: Curve, padded: bool)

  /** Which OCTET STRING contents are a key: the canonical length, one more with a leading zero for P256 and P384,
      one less for P521. */
  function KeyFrom(octets: seq<byte>): Option<KeyOctets> {
    match |octets|
    case 32 => Some(KeyOctets(octets, P256, false))
    case 33 => if octets[0] == 0 then Some(KeyOctets(octets[1..], P256, true)) else None
    case 48 => Some(KeyOctets(octets, P384, false))
    case 49 => if octets[0] == 0 then Some(KeyOctets(octets[1..], P384, true)) else None
    case 65 => Some(KeyOctets(octets, P521, false))
    case 66 => Some(KeyOctets(octets, P521, false))
    case _ => None
  }

  /** What follows the outer header and the version. */
  function AfterVersion(der: seq<byte>): Result<seq<byte>, DerError> {
    match TagOf(SEQUENCE, der)
    case Err(e) => Err(e)
    case Ok(Tag(h, _)) =>
      var s := der[h..];
      match TagOf(INTEGER, s)
      case Err(e) => Err(e)
      case Ok(Tag(h', len)) =>
        if len != 1 || s[h'] != 1 then Err(UnknownSequence) else Ok(s[h' + 1..])
  }

  /** Whether the OID at the front of s is the curve's. */
  function OidError(s: seq<byte>, c: Curve): Option<DerError> {
    match TagOf(OBJECT_IDENTIFIER, s)
    case Err(e) => Some(e)
    case Ok(Tag(h, len)) => if s[h..h + len] == Oid(c) then None else Some(UnsupportedCurve)
  }

  /** Whether the parameters at the front of s name the curve. */
  function CurveError(s: seq<byte>, c: Curve): Option<DerError> {
    match TagOf(PARAMETERS, s)
    case Err(e) => Some(e)
    case Ok(Tag(h, _)) => OidError(s[h..], c)
  }

  /** The key at the front of der.  After a padding zero the remaining length is not counted down, so the rest is
      read as one byte longer than it is: `beyond` is the byte that follows the buffer in memory. */
  function PrivateKeyAt(der: seq<byte>, beyond: byte): Result<seq<byte>, DerError> {
    match AfterVersion(der)
    case Err(e) => Err(e)
    case Ok(s) => KeyAndCurve(s, beyond)
  }

  function KeyAndCurve(s: seq<byte>, beyond: byte): Result<seq<byte>, DerError> {
    match TagOf(OCTET_STRING, s)
    case Err(e) => Err(e)
    case Ok(Tag(h, len)) =>
      match KeyFrom(s[h..h + len])
      case None => Err(UnsupportedKeyLength)
      case Some(k) =>
        match CurveError(s[h + len..] + (if k.padded then [beyond] else []), k.curve)
        case Some(e) => Err(e)
        case None => Ok(k.key)
  }

  /** ecc_der_decode_private_key: a P521 key without its leading zero gets it back. */
  function DecodedPrivateKey(der: seq<byte>, beyond: byte, room: nat): Result<seq<byte>, DerError> {
    match PrivateKeyAt(der, beyond)
    case Err(e) => Err(e)
    case Ok(key) =>
      var full := if |key| == 65 then [0] + key else key;
      if room >= |full| then Ok(full) else Err(SmallKeyBuffer)
  }

  /** ecc_der_decode_private_key_no_copy: where the key lies in the buffer. */
  method FindPrivateKey(der: seq<byte>, beyond: byte) returns (r: Result<(nat, nat), DerError>)
    ensures match PrivateKeyAt(der, beyond)
            case Err(e) => r == Err(e)
            case Ok(key) => r.Ok? && r.value.0 + r.value.1 <= |der|
                            && der[r.value.0..r.value.0 + r.value.1] == key
  {
    hide TagOf;
    var mem := der + [beyond];
    var n := |der|;
    assert mem[0..n] == der;
    var error, pos, length, typeLen := GetNextTag(SEQUENCE, mem, 0, n);
    if error.Some? {
      return Err(error.value);
    }
    assert mem[pos..n] == der[pos..];
    ghost var s := der[pos..];
    ghost var at := pos;
    error, pos, length, typeLen := GetNextTag(INTEGER, mem, pos, length);
    if error.Some? {
      return Err(error.value);
    }
    assert typeLen == 1 ==> mem[pos] == s[pos - at];
    if typeLen != 1 || mem[pos] != 1 {
      return Err(UnknownSequence);
    }
    pos, length := pos + typeLen, length - typeLen;
    assert s[pos - at..] == der[pos..];
    assert AfterVersion(der) == Ok(der[pos..]);
    r := FindKeyOctets(der, beyond, pos);
  }

  /** From the OCTET STRING on. */
  method FindKeyOctets(der: seq<byte>, beyond: byte, start: nat) returns (r: Result<(nat, nat), DerError>)
    requires start <= |der| && AfterVersion(der) == Ok(der[start..])
    ensures match PrivateKeyAt(der, beyond)
            case Err(e) => r == Err(e)
            case Ok(key) => r.Ok? && r.value.0 + r.value.1 <= |der|
                            && der[r.value.0..r.value.0 + r.value.1] == key
  {
    hide TagOf, AfterVersion, CurveError, KeyFrom;
    var mem := der + [beyond];
    ghost var s := der[start..];
    assert mem[start..|der|] == s;
    var error, pos, length, typeLen := GetNextTag(OCTET_STRING, mem, start, |der| - start);
    if error.Some? {
      return Err(error.value);
    }
    ghost var h, len := pos - start, typeLen;
    assert s[h..h + len] == mem[pos..pos + typeLen];
    var k := SelectKey(mem, pos, typeLen);
    if k.None? {
      return Err(UnsupportedKeyLength);
    }
    var (padded, keyLen, curve) := k.value;
    // length is not counted down for the padding
    var keyPos := if padded then pos + 1 else pos;
    pos, length := keyPos + keyLen, length - keyLen;
    assert der[keyPos..pos] == mem[keyPos..pos];
    assert mem[pos..pos + length] == s[h + len..] + (if padded then [beyond] else []);
    var e := CheckCurve(mem, pos, length, curve);
    r := if e.Some? then Err(e.value) else Ok((keyPos, keyLen));
  }

  /** Which octets are the key: those of a P256 or P384 key may follow a zero. */
  method SelectKey(mem: seq<byte>, start: nat, octetsLen: nat) returns (k: Option<(bool, nat, Curve)>)
    requires start + octetsLen <= |mem|
    ensures match KeyFrom(mem[start..start + octetsLen])
            case None => k == None
            case Some(o) => k == Some((o.padded, |o.key|, o.curve))
                            && octetsLen == |o.key| + (if o.padded then 1 else 0)
                            && o.key == mem[start + octetsLen - |o.key|..start + octetsLen]
  {
    ghost var octets := mem[start..start + octetsLen];
    var pos, typeLen, padded := start, octetsLen, false;
    if typeLen == 33 || typeLen == 49 {
      if mem[pos] != 0 {
        return None;
      }
      pos, typeLen, padded := pos + 1, typeLen - 1, true;
      assert octets[1..] == mem[pos..pos + typeLen];
    }
    match typeLen {
      case 32 => k := Some((padded, 32, P256));
      case 48 => k := Some((padded, 48, P384));
      case 65 => k := Some((padded, 65, P521));
      case 66 => k := Some((padded, 66, P521));
      case _ => k := None;
    }
  }

  method CheckCurve(mem: seq<byte>, start: nat, length: nat, curve: Curve) returns (error: Option<DerError>)
    requires start + length <= |mem|
    ensures error == CurveError(mem[start..start + length], curve)
  {
    hide TagOf, OidError;
    ghost var rest := mem[start..start + length];
    var pos, len, typeLen;
    error, pos, len, typeLen := GetNextTag(PARAMETERS, mem, start, length);
    if error.Some? {
      return;
    }
    ghost var h := pos - start;
    assert mem[pos..pos + len] == rest[h..];
    error := CheckOid(mem, pos, len, curve);
  }

  method CheckOid(mem: seq<byte>, start: nat, length: nat, curve: Curve) returns (error: Option<DerError>)
    requires start + length <= |mem|
    ensures error == OidError(mem[start..start + length], curve)
  {
    hide TagOf, Oid;
    var pos, len, typeLen;
    error, pos, len, typeLen := GetNextTag(OBJECT_IDENTIFIER, mem, start, length);
    if error.Some? {
      return;
    }
    SubSlice(mem, start, start + length, pos - start, pos - start + typeLen);
    if typeLen != |Oid(curve)| || mem[pos..pos + typeLen] != Oid(curve) {
      return Some(UnsupportedCurve);
    }
  }

  method DecodePrivateKey(der: seq<byte>, beyond: byte, key: array<byte>, room: nat) returns (r: Result<nat, DerError>)
    requires room <= key.Length
    modifies key
    ensures match DecodedPrivateKey(der, beyond, room)
            case Err(e) => r == Err(e) && key[..] == old(key[..])
            case Ok(k) => r == Ok(|k|) && |k| <= room && key[..] == Splice(old(key[..]), 0, k)
  {
    hide PrivateKeyAt;
    var found := FindPrivateKey(der, beyond);
    if found.Err? {
      return Err(found.error);
    }
    var (pos, typeLen) := found.value;
    var keyLen := if typeLen == 65 then typeLen + 1 else typeLen;
    if room < keyLen {
      return Err(SmallKeyBuffer);
    }
    if typeLen == 65 {
      CopyInto(key, 0, [0] + der[pos..pos + typeLen]);
    } else {
      CopyInto(key, 0, der[pos..pos + typeLen]);
    }
    r := Ok(keyLen);
  }

  // Round trips of private keys

  lemma AfterWrittenVersion(body: seq<byte>, more: seq<byte>, rest: seq<byte>)
    requires body == Tlv(INTEGER, [1]) + more && |body| < 256
    ensures AfterVersion(Tlv(SEQUENCE, body) + rest) == Ok(more + rest)
  {
    hide TagOf, Tlv;
    TlvLength(INTEGER, [1]);
    ReadNested(SEQUENCE, body, rest);
    assert body + rest == Tlv(INTEGER, [1]) + (more + rest);
    TagOfWritten(INTEGER, [1], more + rest);
  }

  lemma CurveIsWritten(c: Curve, rest: seq<byte>)
    ensures CurveError(Tlv(PARAMETERS, Tlv(OBJECT_IDENTIFIER, Oid(c))) + rest, c) == None
  {
    hide TagOf, Tlv;
    var inner := Tlv(OBJECT_IDENTIFIER, Oid(c));
    TlvLength(OBJECT_IDENTIFIER, Oid(c));
    ReadNested(PARAMETERS, inner, rest);
    TagOfWritten(OBJECT_IDENTIFIER, Oid(c), rest);
  }

  /** A private key decodes to the key its octets stand for: canonical, zero padded or with its zero dropped, with
      or without a public key, and whatever follows the encoding in the buffer and beyond it. */
  lemma PrivateFormReads(c: Curve, octets: seq<byte>, pub: Option<Point>, rest: seq<byte>, beyond: byte)
    requires ValidPub(c, pub) && |octets| <= 67 && KeyFrom(octets).Some? && KeyFrom(octets).value.curve == c
    ensures PrivateKeyAt(PrivateForm(c, octets, pub) + rest, beyond) == Ok(KeyFrom(octets).value.key)
  {
    hide TagOf, Tlv, AfterVersion, CurveError, KeyAndCurve, KeyFrom;
    BodyLengths(c, octets, pub);
    TlvLength(OBJECT_IDENTIFIER, Oid(c));
    var params := Tlv(PARAMETERS, Tlv(OBJECT_IDENTIFIER, Oid(c)));
    var body := PrivateBody(c, octets, pub);
    var more := Tlv(OCTET_STRING, octets) + (params + PublicPart(pub));
    assert body == Tlv(INTEGER, [1]) + more;
    AfterWrittenVersion(body, more, rest);
    assert more + rest == Tlv(OCTET_STRING, octets) + (params + (PublicPart(pub) + rest));
    KeyAndCurveWritten(c, octets, PublicPart(pub) + rest, beyond);
  }

  lemma KeyAndCurveWritten(c: Curve, octets: seq<byte>, rest: seq<byte>, beyond: byte)
    requires |octets| <= 67 && KeyFrom(octets).Some? && KeyFrom(octets).value.curve == c
    requires |Tlv(OBJECT_IDENTIFIER, Oid(c))| < 256
    ensures KeyAndCurve(Tlv(OCTET_STRING, octets) + (Tlv(PARAMETERS, Tlv(OBJECT_IDENTIFIER, Oid(c))) + rest), beyond)
            == Ok(KeyFrom(octets).value.key)
  {
    hide TagOf, Tlv, CurveError, KeyFrom;
    var params := Tlv(PARAMETERS, Tlv(OBJECT_IDENTIFIER, Oid(c)));
    TlvLength(PARAMETERS, Tlv(OBJECT_IDENTIFIER, Oid(c)));
    TagOfWritten(OCTET_STRING, octets, params + rest);
    var last: seq<byte> := if KeyFrom(octets).value.padded then [beyond] else [];
    assert params + rest + last == params + (rest + last);
    CurveIsWritten(c, rest + last);
  }

  /** Decoding undoes encoding. */
  lemma PrivateKeyRoundTrip(c: Curve, d: seq<byte>, pub: Option<Point>, rest: seq<byte>, beyond: byte, room: nat)
    requires |d| == KeyLength(c) && ValidPub(c, pub) && room >= |d|
    ensures DecodedPrivateKey(PrivateForm(c, d, pub) + rest, beyond, room) == Ok(d)
  {
    hide PrivateForm, PrivateKeyAt;
    PrivateFormReads(c, d, pub, rest, beyond);
  }

  /** The zero padded 33 and 49 byte forms and the 65 byte form with its zero dropped give the same key. */
  lemma OtherFormsRoundTrip(c: Curve, d: seq<byte>, pub: Option<Point>, rest: seq<byte>, beyond: byte, room: nat)
    requires |d| == KeyLength(c) && ValidPub(c, pub) && room >= |d|
    ensures c != P521 ==> DecodedPrivateKey(PrivateForm(c, [0] + d, pub) + rest, beyond, room) == Ok(d)
    ensures c == P521 && d[0] == 0 ==> DecodedPrivateKey(PrivateForm(c, d[1..], pub) + rest, beyond, room) == Ok(d)
  {
    hide PrivateForm, PrivateKeyAt;
    if c != P521 {
      PrivateFormReads(c, [0] + d, pub, rest, beyond);
      assert ([0] + d)[1..] == d;
    } else if d[0] == 0 {
      PrivateFormReads(c, d[1..], pub, rest, beyond);
      assert [0] + d[1..] == d;
    }
  }

  /** The length probes tell where a key ends, whatever follows it. */
  lemma ProbesFindKeys(c: Curve, d: seq<byte>, pub: Option<Point>, p: Point, rest: seq<byte>)
    requires |d| == KeyLength(c) && ValidPub(c, pub) && IsPoint(c, p.x, p.y)
    ensures Asn1Util.EncodedLength(PrivateForm(c, d, pub) + rest) == PrivateLength(c, pub.Some?)
    ensures Asn1Util.EncodedLength(PublicForm(c, p) + rest) == PublicLength(c)
  {
    hide Tlv, PrivateBody, PublicBody, Asn1Util.EncodedLength;
    PrivateLengthIs(c, d, pub);
    PublicLengthIs(c, p);
    Asn1Util.ProbeFindsEncoding(SEQUENCE, PrivateBody(c, d, pub), rest);
    Asn1Util.ProbeFindsEncoding(SEQUENCE, PublicBody(c, p), rest);
  }

  // The byte beyond the buffer

  /** An OID of the curve that lacks its last byte, or the second octet of its length. */
  predicate OidLacksOneByte(u: seq<byte>, c: Curve) {
    var cut := Oid(c)[..|Oid(c)| - 1];
    || u == [OBJECT_IDENTIFIER, |Oid(c)|] + cut
    || u == [OBJECT_IDENTIFIER, 0x81, |Oid(c)|] + cut
    || u == [OBJECT_IDENTIFIER, 0x81]
  }

  /** What follows a padded key is exactly one byte short. */
  predicate LacksOneByte(s: seq<byte>, c: Curve) {
    match TagOf(PARAMETERS, s + [0])
    case Err(_) => false
    case Ok(Tag(h, _)) => h <= |s| && OidLacksOneByte(s[h..], c)
  }

  /** der is a padded P256 or P384 key whose outer length ends one byte before the curve name does. */
  predicate CutShort(der: seq<byte>) {
    match AfterVersion(der)
    case Err(_) => false
    case Ok(s) =>
      match TagOf(OCTET_STRING, s)
      case Err(_) => false
      case Ok(Tag(h, len)) =>
        match KeyFrom(s[h..h + len])
        case None => false
        case Some(k) => k.padded && LacksOneByte(s[h + len..], k.curve)
  }

  /** The last byte is part of a header only when it is the second length octet. */
  lemma TagIgnoresLast(tag: byte, u: seq<byte>, b: byte)
    requires |u| != 2 || u[0] != tag || u[1] != 0x81
    ensures TagOf(tag, u + [b]) == TagOf(tag, u + [0])
  {
  }

  lemma NotInHeader(u: seq<byte>, c: Curve)
    requires !OidLacksOneByte(u, c)
    ensures |u| != 2 || u[0] != OBJECT_IDENTIFIER || u[1] != 0x81
  {
    assert |u| != 2 || u == [u[0], u[1]];
  }

  lemma CompleteOidIgnoresLast(u: seq<byte>, c: Curve, b: byte)
    requires !OidLacksOneByte(u, c)
    ensures OidError(u + [b], c) == OidError(u + [0], c)
  {
    hide TagOf, Oid, OidLacksOneByte;
    NotInHeader(u, c);
    TagIgnoresLast(OBJECT_IDENTIFIER, u, b);
    var t := TagOf(OBJECT_IDENTIFIER, u + [0]);
    if t.Ok? {
      var Tag(h, len) := t.value;
      if h + len <= |u| {
        assert (u + [b])[h..h + len] == u[h..h + len] == (u + [0])[h..h + len];
      } else if len == |Oid(c)| {
        OnlyCutOidMatches(u, c, b, h);
        OnlyCutOidMatches(u, c, 0, h);
        assert (u + [b])[h..h + len] == (u + [b])[h..] && (u + [0])[h..h + len] == (u + [0])[h..];
      }
    }
  }

  lemma OnlyCutOidMatches(u: seq<byte>, c: Curve, b: byte, h: nat)
    requires TagOf(OBJECT_IDENTIFIER, u + [0]) == Ok(Tag(h, |Oid(c)|)) && h + |Oid(c)| == |u| + 1
    ensures (u + [b])[h..] == Oid(c) ==> OidLacksOneByte(u, c)
  {
    var oid := Oid(c);
    assert u[..h] == [OBJECT_IDENTIFIER, |oid|] || u[..h] == [OBJECT_IDENTIFIER, 0x81, |oid|];
    assert u == u[..h] + u[h..];
    if (u + [b])[h..] == oid {
      assert oid[..|oid| - 1] == u[h..];
    }
  }

  lemma OidErrorBehind(header: seq<byte>, content: seq<byte>, c: Curve)
    requires |content| == |Oid(c)|
    requires header == [OBJECT_IDENTIFIER, |content|] || header == [OBJECT_IDENTIFIER, 0x81, |content|]
    ensures OidError(header + content, c) == if content == Oid(c) then None else Some(UnsupportedCurve)
  {
    hide Oid;
    var s, h := header + content, |header|;
    assert s[0] == header[0] && s[1] == header[1] && s[2] == if h == 2 then content[0] else header[2];
    assert s[h..h + |content|] == content;
  }

  lemma OidEndsNonzero(c: Curve)
    ensures Oid(c)[|Oid(c)| - 1] != 0
  {
  }

  lemma CutOidFollowsLast(u: seq<byte>, c: Curve) returns (b: byte)
    requires OidLacksOneByte(u, c)
    ensures OidError(u + [b], c) != OidError(u + [0], c)
  {
    if u == [OBJECT_IDENTIFIER, 0x81] {
      b := 1;
    } else {
      b := CutContentFollowsLast(u, c);
    }
  }

  lemma CutContentFollowsLast(u: seq<byte>, c: Curve) returns (b: byte)
    requires OidLacksOneByte(u, c) && u != [OBJECT_IDENTIFIER, 0x81]
    ensures OidError(u + [b], c) != OidError(u + [0], c)
  {
    hide Oid, OidError;
    var oid := Oid(c);
    var n := |oid|;
    var cut := oid[..n - 1];
    var header: seq<byte> :=
      if u == [OBJECT_IDENTIFIER, n] + cut then [OBJECT_IDENTIFIER, n] else [OBJECT_IDENTIFIER, 0x81, n];
    b := oid[n - 1];
    OidEndsNonzero(c);
    assert u + [b] == header + (cut + [b]) && u + [0] == header + (cut + [0]);
    assert cut + [b] == oid && (cut + [0])[n - 1] == 0;
    OidErrorBehind(header, cut + [b], c);
    OidErrorBehind(header, cut + [0], c);
  }

  lemma CurveErrorFollows(s: seq<byte>, c: Curve, b: byte)
    requires !LacksOneByte(s, c)
    ensures CurveError(s + [b], c) == CurveError(s + [0], c)
  {
    hide OidLacksOneByte;
    if |s| != 2 {
      TagIgnoresLast(PARAMETERS, s, b);
      var t := TagOf(PARAMETERS, s + [0]);
      if t.Ok? && t.value.headerLen <= |s| {
        var u := s[t.value.headerLen..];
        assert (s + [b])[t.value.headerLen..] == u + [b] && (s + [0])[t.value.headerLen..] == u + [0];
        CompleteOidIgnoresLast(u, c, b);
      }
    }
  }

  lemma CurveErrorDepends(s: seq<byte>, c: Curve) returns (b: byte)
    requires LacksOneByte(s, c)
    ensures CurveError(s + [b], c) != CurveError(s + [0], c)
  {
    hide OidError;
    var h := TagOf(PARAMETERS, s + [0]).value.headerLen;
    var u := s[h..];
    b := CutOidFollowsLast(u, c);
    assert |s| == h + |u|;
    TagIgnoresLast(PARAMETERS, s, b);
    assert (s + [b])[h..] == u + [b] && (s + [0])[h..] == u + [0];
  }

  /** The decoder's answer depends on the buffer alone if and only if the buffer is not a padded key whose outer length
      ends one byte before its curve name; then it depends on the byte that happens to follow in memory. */
  lemma DecodingStaysInside(der: seq<byte>)
    ensures (forall b: byte, b': byte :: PrivateKeyAt(der, b) == PrivateKeyAt(der, b')) <==> !CutShort(der)
  {
    hide AfterVersion, TagOf, CurveError, LacksOneByte;
    var s := AfterVersion(der);
    if s.Ok? {
      var t := TagOf(OCTET_STRING, s.value);
      if t.Ok? {
        var Tag(h, len) := t.value;
        var k := KeyFrom(s.value[h..h + len]);
        if k.Some? && k.value.padded {
          var rest := s.value[h + len..];
          if LacksOneByte(rest, k.value.curve) {
            var b := CurveErrorDepends(rest, k.value.curve);
            assert PrivateKeyAt(der, b) != PrivateKeyAt(der, 0);
          } else {
            forall b: byte ensures PrivateKeyAt(der, b) == PrivateKeyAt(der, 0) {
              CurveErrorFollows(rest, k.value.curve, b);
            }
          }
        }
      }
    }
  }

  /** octets are a key for the curve: as it is, behind a padding zero, or without its leading zero. */
  predicate StandsFor(octets: seq<byte>, c: Curve, key: seq<byte>) {
    match c
    case P256 => |key| == 32 && (octets == key || octets == [0] + key)
    case P384 => |key| == 48 && (octets == key || octets == [0] + key)
    case P521 => 65 <= |key| <= 66 && octets == key
  }

  /** der starts with a version 1 private key whose parameters name the key's curve; behind a padding zero, the byte
      beyond the buffer counts as part of it. */
  ghost predicate HoldsPrivate(der: seq<byte>, beyond: byte, key: seq<byte>) {
    exists s1, s2, s3, octets, c, s4, rest ::
      Opens(0x30, der, s1) && Reads(0x02, s1, [1], s2) && Reads(0x04, s2, octets, s3) && StandsFor(octets, c, key)
      && Opens(0xa0, s3 + (if octets == [0] + key then [beyond] else []), s4) && Reads(0x06, s4, Oid(c), rest)
  }

  lemma KeyFromExact(octets: seq<byte>, c: Curve, key: seq<byte>)
    ensures StandsFor(octets, c, key) <==> KeyFrom(octets) == Some(KeyOctets(key, c, octets == [0] + key))
  {
    if |octets| == 33 || |octets| == 49 {
      assert octets == [octets[0]] + octets[1..];
    }
    assert ([0] + key)[1..] == key;
  }

  lemma AfterVersionExact(der: seq<byte>, s2: seq<byte>)
    ensures AfterVersion(der) == Ok(s2) <==> exists s1 :: Opens(0x30, der, s1) && Reads(0x02, s1, [1], s2)
  {
    hide TagOf, Reads, Opens;
    if TagOf(0x30, der).Ok? {
      var s1 := der[TagOf(0x30, der).value.headerLen..];
      OpensIsTagOf(0x30, der, s1);
      ReadsIsTagOf(0x02, s1, [1], s2);
      if TagOf(0x02, s1).Ok? {
        var Tag(h, n) := TagOf(0x02, s1).value;
        if n == 1 {
          assert s1[h..h + 1] == [s1[h]];
        }
      }
    }
    if s1 :| Opens(0x30, der, s1) && Reads(0x02, s1, [1], s2) {
      OpensIsTagOf(0x30, der, s1);
      ReadsIsTagOf(0x02, s1, [1], s2);
    }
  }

  lemma CurveErrorExact(s: seq<byte>, c: Curve)
    ensures CurveError(s, c) == None <==> exists s4, rest :: Opens(0xa0, s, s4) && Reads(0x06, s4, Oid(c), rest)
  {
    hide TagOf, Reads, Opens, Oid;
    if TagOf(0xa0, s).Ok? {
      var s4 := s[TagOf(0xa0, s).value.headerLen..];
      OpensIsTagOf(0xa0, s, s4);
      if TagOf(0x06, s4).Ok? {
        var Tag(h, n) := TagOf(0x06, s4).value;
        ReadsIsTagOf(0x06, s4, s4[h..h + n], s4[h + n..]);
      }
    }
    if s4, rest :| Opens(0xa0, s, s4) && Reads(0x06, s4, Oid(c), rest) {
      OpensIsTagOf(0xa0, s, s4);
      ReadsIsTagOf(0x06, s4, Oid(c), rest);
    }
  }

  /** A private key is found if and only if the buffer holds it; everything else is refused. */
  lemma PrivateDecodesExactly(der: seq<byte>, beyond: byte, key: seq<byte>)
    ensures PrivateKeyAt(der, beyond) == Ok(key) <==> HoldsPrivate(der, beyond, key)
  {
    hide TagOf, Reads, Opens, AfterVersion, CurveError, KeyFrom, StandsFor, Oid;
    if PrivateKeyAt(der, beyond) == Ok(key) {
      var s2 := AfterVersion(der).value;
      AfterVersionExact(der, s2);
      var s1 :| Opens(0x30, der, s1) && Reads(0x02, s1, [1], s2);
      var Tag(h, n) := TagOf(0x04, s2).value;
      var octets, s3 := s2[h..h + n], s2[h + n..];
      ReadsIsTagOf(0x04, s2, octets, s3);
      var k := KeyFrom(octets).value;
      KeyFromPadded(octets);
      KeyFromExact(octets, k.curve, key);
      var all := s3 + (if octets == [0] + key then [beyond] else []);
      CurveErrorExact(all, k.curve);
      var s4, rest :| Opens(0xa0, all, s4) && Reads(0x06, s4, Oid(k.curve), rest);
    }
    if s1, s2, s3, octets, c, s4, rest :|
        Opens(0x30, der, s1) && Reads(0x02, s1, [1], s2) && Reads(0x04, s2, octets, s3) && StandsFor(octets, c, key)
        && Opens(0xa0, s3 + (if octets == [0] + key then [beyond] else []), s4) && Reads(0x06, s4, Oid(c), rest) {
      AfterVersionExact(der, s2);
      ReadsIsTagOf(0x04, s2, octets, s3);
      KeyFromExact(octets, c, key);
      CurveErrorExact(s3 + (if octets == [0] + key then [beyond] else []), c);
    }
  }

  /** The key is copied out if and only if the buffer holds it, or for P521 without its leading zero, and there is
      room. */
  lemma KeyExact(der: seq<byte>, beyond: byte, room: nat, d: seq<byte>)
    ensures DecodedPrivateKey(der, beyond, room) == Ok(d)
            <==> room >= |d| && ((|d| != 65 && HoldsPrivate(der, beyond, d))
                                 || (|d| == 66 && d[0] == 0 && HoldsPrivate(der, beyond, d[1..])))
  {
    hide PrivateKeyAt, HoldsPrivate;
    PrivateDecodesExactly(der, beyond, d);
    if |d| == 66 {
      PrivateDecodesExactly(der, beyond, d[1..]);
      assert d == [d[0]] + d[1..];
    }
    if PrivateKeyAt(der, beyond).Ok? {
      var key := PrivateKeyAt(der, beyond).value;
      assert ([0] + key)[1..] == key;
    }
  }

  lemma KeyFromPadded(octets: seq<byte>)
    requires KeyFrom(octets).Some?
    ensures KeyFrom(octets).value.padded <==> octets == [0] + KeyFrom(octets).value.key
  {
    if |octets| == 33 || |octets| == 49 {
      assert octets == [octets[0]] + octets[1..];
    }
  }

  /** A padded key whose outer length leaves out the last byte of the curve name. */
  function Understated(c: Curve, d: seq<byte>): seq<byte>
    requires |d| == KeyLength(c)
  {
    Tlv(SEQUENCE, Tlv(INTEGER, [1]) + (Tlv(OCTET_STRING, [0] + d) + CutParameters(c)))
  }

  function CutParameters(c: Curve): seq<byte> {
    [PARAMETERS, |Oid(c)| + 2, OBJECT_IDENTIFIER, |Oid(c)|] + Oid(c)[..|Oid(c)| - 1]
  }

  /** Every such key is one of those inputs: read with the missing byte behind it, it decodes; with another one, it
      does not. */
  lemma UnderstatedDepends(c: Curve, d: seq<byte>, b: byte)
    requires |d| == KeyLength(c) && c != P521
    ensures CutShort(Understated(c, d))
    ensures PrivateKeyAt(Understated(c, d), b)
            == if b == Oid(c)[|Oid(c)| - 1] then Ok(d) else Err(UnsupportedCurve)
  {
    hide TagOf, Tlv, AfterVersion, KeyFrom, LacksOneByte, CurveError, CutParameters;
    UnderstatedAfterVersion(c, d);
    TagOfWritten(OCTET_STRING, [0] + d, CutParameters(c));
    PaddedKey(c, d);
    CutParametersLack(c, b);
  }

  lemma UnderstatedAfterVersion(c: Curve, d: seq<byte>)
    requires |d| == KeyLength(c)
    ensures AfterVersion(Understated(c, d)) == Ok(Tlv(OCTET_STRING, [0] + d) + CutParameters(c))
  {
    hide Tlv, AfterVersion;
    var s := Tlv(OCTET_STRING, [0] + d) + CutParameters(c);
    TlvLength(OCTET_STRING, [0] + d);
    TlvLength(INTEGER, [1]);
    AfterWrittenVersion(Tlv(INTEGER, [1]) + s, s, []);
    assert Understated(c, d) + [] == Understated(c, d) && s + [] == s;
  }

  lemma PaddedKey(c: Curve, d: seq<byte>)
    requires |d| == KeyLength(c) && c != P521
    ensures KeyFrom([0] + d) == Some(KeyOctets(d, c, true))
  {
    assert ([0] + d)[1..] == d;
  }

  lemma CutParametersLack(c: Curve, b: byte)
    ensures LacksOneByte(CutParameters(c), c)
    ensures CurveError(CutParameters(c) + [b], c)
            == if b == Oid(c)[|Oid(c)| - 1] then None else Some(UnsupportedCurve)
  {
    hide Oid, OidError;
    var oid, s := Oid(c), CutParameters(c);
    var n := |oid|;
    assert s[2..] == [OBJECT_IDENTIFIER, n] + oid[..n - 1];
    assert (s + [b])[2..] == [OBJECT_IDENTIFIER, n] + (oid[..n - 1] + [b]);
    OidErrorBehind([OBJECT_IDENTIFIER, n], oid[..n - 1] + [b], c);
    assert oid[..n - 1] + [oid[n - 1]] == oid;
    assert (oid[..n - 1] + [b])[n - 1] == b;
  }

  /** A buffer that merely ends too early is not one of them: it is rejected at the outer header. */
  lemma TruncatedIsRejected(c: Curve, octets: seq<byte>, pub: Option<Point>, n: nat)
    requires |octets| <= 67 && ValidPub(c, pub) && n < |PrivateForm(c, octets, pub)|
    ensures AfterVersion(PrivateForm(c, octets, pub)[..n]).Err? && !CutShort(PrivateForm(c, octets, pub)[..n])
  {
    hide PrivateBody;
    BodyLengths(c, octets, pub);
    HeaderShape(SEQUENCE, |PrivateBody(c, octets, pub)|);
  }

  // Decoding public keys

  /** The point in a BIT STRING: its leading octet is skipped, the format octet checked, and the rest halved. */
  function PointFrom(bits: seq<byte>, oid: seq<byte>): Result<seq<byte>, DerError> {
    if |bits| < 2 then Err(Malformed)
    else if bits[1] == 0 then Err(InfinityEcPoint)
    else if bits[1] > 4 || bits[1] == 1 then Err(InvalidEcPoint)
    else
      match CurveFor((|bits| - 2) / 2)
      case None => Err(UnsupportedKeyLength)
      case Some(c) => if oid == Oid(c) then Ok(bits[1..]) else Err(UnsupportedCurve)
  }

  /** ecc_der_decode_public_key_no_copy. */
  function PublicKeyAt(der: seq<byte>): Result<seq<byte>, DerError> {
    match TagOf(SEQUENCE, der)
    case Err(e) => Err(e)
    case Ok(Tag(h1, _)) =>
      var s1 := der[h1..];
      match TagOf(SEQUENCE, s1)
      case Err(e) => Err(e)
      case Ok(Tag(h2, _)) =>
        AlgorithmAndPoint(s1[h2..])
  }

  function AlgorithmAndPoint(s: seq<byte>): Result<seq<byte>, DerError> {
    match TagOf(OBJECT_IDENTIFIER, s)
    case Err(e) => Err(e)
    case Ok(Tag(h, n)) =>
      if s[h..h + n] != EC_PUBLIC_KEY_OID then Err(UnsupportedAlgorithm) else CurveAndPoint(s[h + n..])
  }

  function CurveAndPoint(s: seq<byte>): Result<seq<byte>, DerError> {
    match TagOf(OBJECT_IDENTIFIER, s)
    case Err(e) => Err(e)
    case Ok(Tag(h, n)) =>
      var s' := s[h + n..];
      match TagOf(BIT_STRING, s')
      case Err(e) => Err(e)
      case Ok(Tag(h', n')) => PointFrom(s'[h'..h' + n'], s[h..h + n])
  }

  /** ecc_der_decode_public_key: only uncompressed points are copied out. */
  function DecodedPublicKey(der: seq<byte>, room: nat): Result<Point, DerError> {
    match PublicKeyAt(der)
    case Err(e) => Err(e)
    case Ok(point) =>
      if |point| < 1 || point[0] != 4 then Err(CompressedEcPoint)
      else
        var n := (|point| - 1) / 2;
        if room < n then Err(SmallKeyBuffer) else Ok(Point(point[1..1 + n], point[1 + n..1 + 2 * n]))
  }

  /** A curve and, in a BIT STRING, a point in a known format that is on that curve going by its length. */
  predicate NamesPoint(s: seq<byte>, point: seq<byte>, c: Curve, s4: seq<byte>, unused: byte, rest: seq<byte>) {
    && Reads(0x06, s, Oid(c), s4) && Reads(0x03, s4, [unused] + point, rest)
    && |point| >= 1 && point[0] in {2, 3, 4} && (|point| - 1) / 2 == KeyLength(c)
  }

  /** der starts with an ecPublicKey with that curve and point. */
  ghost predicate HoldsPublic(der: seq<byte>, point: seq<byte>) {
    exists s1, s2, s3, c, s4, unused, rest ::
      Opens(0x30, der, s1) && Opens(0x30, s1, s2) && Reads(0x06, s2, [0x2a, 0x86, 0x48, 0xce, 0x3d, 0x02, 0x01], s3)
      && NamesPoint(s3, point, c, s4, unused, rest)
  }

  lemma PointFromExact(bits: seq<byte>, oid: seq<byte>, point: seq<byte>)
    ensures PointFrom(bits, oid) == Ok(point)
            <==> |point| >= 1 && |bits| == |point| + 1 && bits[1..] == point && point[0] in {2, 3, 4}
                 && exists c :: oid == Oid(c) && (|point| - 1) / 2 == KeyLength(c)
  {
    hide Oid;
  }

  lemma CurveAndPointExact(s: seq<byte>, point: seq<byte>)
    ensures CurveAndPoint(s) == Ok(point) <==> exists c, s4, unused, rest :: NamesPoint(s, point, c, s4, unused, rest)
  {
    hide TagOf, Reads, PointFrom, Oid;
    if CurveAndPoint(s) == Ok(point) {
      var Tag(h, n) := TagOf(0x06, s).value;
      var oid, s4 := s[h..h + n], s[h + n..];
      ReadsIsTagOf(0x06, s, oid, s4);
      var Tag(h', n') := TagOf(0x03, s4).value;
      var bits, rest := s4[h'..h' + n'], s4[h' + n'..];
      ReadsIsTagOf(0x03, s4, bits, rest);
      PointFromExact(bits, oid, point);
      assert bits == [bits[0]] + point;
      var c :| oid == Oid(c) && (|point| - 1) / 2 == KeyLength(c);
      assert NamesPoint(s, point, c, s4, bits[0], rest);
    }
    if c, s4, unused, rest :| NamesPoint(s, point, c, s4, unused, rest) {
      var bits: seq<byte> := [unused] + point;
      ReadsIsTagOf(0x06, s, Oid(c), s4);
      ReadsIsTagOf(0x03, s4, bits, rest);
      assert bits[1..] == point;
      PointFromExact(bits, Oid(c), point);
    }
  }

  lemma AlgorithmExact(s: seq<byte>, point: seq<byte>)
    ensures AlgorithmAndPoint(s) == Ok(point)
            <==> exists s3 :: Reads(0x06, s, EC_PUBLIC_KEY_OID, s3) && CurveAndPoint(s3) == Ok(point)
  {
    hide TagOf, Reads, CurveAndPoint;
    if TagOf(0x06, s).Ok? {
      var Tag(h, n) := TagOf(0x06, s).value;
      ReadsIsTagOf(0x06, s, s[h..h + n], s[h + n..]);
    }
    if s3 :| Reads(0x06, s, EC_PUBLIC_KEY_OID, s3) && CurveAndPoint(s3) == Ok(point) {
      ReadsIsTagOf(0x06, s, EC_PUBLIC_KEY_OID, s3);
    }
  }

  /** A public key is found if and only if the buffer holds it; everything else is refused. */
  lemma PublicDecodesExactly(der: seq<byte>, point: seq<byte>)
    ensures PublicKeyAt(der) == Ok(point) <==> HoldsPublic(der, point)
  {
    hide TagOf, Reads, Opens, AlgorithmAndPoint, Oid, NamesPoint;
    if PublicKeyAt(der) == Ok(point) {
      var s1 := der[TagOf(0x30, der).value.headerLen..];
      var s2 := s1[TagOf(0x30, s1).value.headerLen..];
      OpensIsTagOf(0x30, der, s1);
      OpensIsTagOf(0x30, s1, s2);
      AlgorithmExact(s2, point);
      var s3 :| Reads(0x06, s2, EC_PUBLIC_KEY_OID, s3) && CurveAndPoint(s3) == Ok(point);
      CurveAndPointExact(s3, point);
    }
    if s1, s2, s3, c, s4, unused, rest :|
        Opens(0x30, der, s1) && Opens(0x30, s1, s2) && Reads(0x06, s2, [0x2a, 0x86, 0x48, 0xce, 0x3d, 0x02, 0x01], s3)
        && NamesPoint(s3, point, c, s4, unused, rest) {
      OpensIsTagOf(0x30, der, s1);
      OpensIsTagOf(0x30, s1, s2);
      CurveAndPointExact(s3, point);
      AlgorithmExact(s2, point);
    }
  }

  /** The coordinates are copied out if and only if the buffer holds an uncompressed point and there is room; a last odd
      byte of the point is ignored. */
  lemma CoordinatesExact(der: seq<byte>, room: nat, p: Point)
    requires |p.x| == |p.y|
    ensures DecodedPublicKey(der, room) == Ok(p)
            <==> room >= |p.x| && exists odd: seq<byte> :: |odd| <= 1 && HoldsPublic(der, [0x04] + p.x + p.y + odd)
  {
    hide PublicKeyAt, HoldsPublic;
    if DecodedPublicKey(der, room) == Ok(p) {
      var point := PublicKeyAt(der).value;
      SplitPoint(point, |p.x|);
      PublicDecodesExactly(der, point);
    }
    if room >= |p.x| {
      if odd: seq<byte> :| |odd| <= 1 && HoldsPublic(der, [0x04] + p.x + p.y + odd) {
        PublicDecodesExactly(der, [0x04] + p.x + p.y + odd);
        JoinedPoint(p, odd);
      }
    }
  }

  lemma SplitPoint(point: seq<byte>, n: nat)
    requires |point| >= 1 + 2 * n
    ensures point == [point[0]] + point[1..1 + n] + point[1 + n..1 + 2 * n] + point[1 + 2 * n..]
  {
    assert point[1..1 + n] + point[1 + n..1 + 2 * n] == point[1..1 + 2 * n];
  }

  lemma JoinedPoint(p: Point, odd: seq<byte>)
    requires |p.x| == |p.y|
    ensures var point, n := [0x04] + p.x + p.y + odd, |p.x|;
            point[0] == 0x04 && point[1..1 + n] == p.x && point[1 + n..1 + 2 * n] == p.y
  {
  }

  /** ecc_der_decode_public_key_no_copy: where the point lies in the buffer. */
  method FindPublicKey(der: seq<byte>) returns (r: Result<(nat, nat), DerError>)
    ensures match PublicKeyAt(der)
            case Err(e) => r == Err(e)
            case Ok(point) => r.Ok? && r.value.0 + r.value.1 <= |der|
                              && der[r.value.0..r.value.0 + r.value.1] == point
  {
    hide TagOf, AlgorithmAndPoint;
    assert der[0..|der|] == der;
    var error, pos, length, typeLen := GetNextTag(SEQUENCE, der, 0, |der|);
    if error.Some? {
      return Err(error.value);
    }
    assert pos + length == |der|;
    error, pos, length, typeLen := GetNextTag(SEQUENCE, der, pos, length);
    if error.Some? {
      return Err(error.value);
    }
    assert pos + length == |der|;
    r := FindAlgorithm(der, pos);
  }

  method FindAlgorithm(der: seq<byte>, start: nat) returns (r: Result<(nat, nat), DerError>)
    requires start <= |der|
    ensures match AlgorithmAndPoint(der[start..])
            case Err(e) => r == Err(e)
            case Ok(point) => r.Ok? && r.value.0 + r.value.1 <= |der|
                              && der[r.value.0..r.value.0 + r.value.1] == point
  {
    hide TagOf, CurveAndPoint;
    ghost var s := der[start..];
    assert s == der[start..start + (|der| - start)];
    var error, pos, length, typeLen := GetNextTag(OBJECT_IDENTIFIER, der, start, |der| - start);
    if error.Some? {
      return Err(error.value);
    }
    assert s[pos - start..pos - start + typeLen] == der[pos..pos + typeLen];
    if typeLen != |EC_PUBLIC_KEY_OID| || der[pos..pos + typeLen] != EC_PUBLIC_KEY_OID {
      return Err(UnsupportedAlgorithm);
    }
    assert s[pos - start + typeLen..] == der[pos + typeLen..];
    r := FindPoint(der, pos + typeLen);
  }

  /** The curve, remembered until the key length is known, and the point. */
  method FindPoint(der: seq<byte>, start: nat) returns (r: Result<(nat, nat), DerError>)
    requires start <= |der|
    ensures match CurveAndPoint(der[start..])
            case Err(e) => r == Err(e)
            case Ok(point) => r.Ok? && r.value.0 + r.value.1 <= |der|
                              && der[r.value.0..r.value.0 + r.value.1] == point
  {
    hide TagOf, PointFrom;
    ghost var s := der[start..];
    assert der[start..start + (|der| - start)] == s;
    var error, pos, length, typeLen := GetNextTag(OBJECT_IDENTIFIER, der, start, |der| - start);
    if error.Some? {
      return Err(error.value);
    }
    var oid := der[pos..pos + typeLen];
    assert s[pos - start..pos - start + typeLen] == oid;
    pos, length := pos + typeLen, length - typeLen;
    ghost var s', at := s[pos - start..], pos;
    assert s' == der[pos..pos + length];
    error, pos, length, typeLen := GetNextTag(BIT_STRING, der, pos, length);
    if error.Some? {
      return Err(error.value);
    }
    assert s'[pos - at..pos - at + typeLen] == der[pos..pos + typeLen];
    r := CheckPoint(der, pos, typeLen, oid);
  }

  method CheckPoint(der: seq<byte>, start: nat, bitsLen: nat, oid: seq<byte>) returns (r: Result<(nat, nat), DerError>)
    requires start + bitsLen <= |der|
    ensures match PointFrom(der[start..start + bitsLen], oid)
            case Err(e) => r == Err(e)
            case Ok(point) => r.Ok? && r.value.0 + r.value.1 <= |der|
                              && der[r.value.0..r.value.0 + r.value.1] == point
  {
    hide Oid;
    ghost var bits := der[start..start + bitsLen];
    if bitsLen < 2 {
      return Err(Malformed);
    }
    var pos, typeLen := start + 1, bitsLen - 1;
    assert bits[1..] == der[pos..pos + typeLen];
    if der[pos] == 0 {
      return Err(InfinityEcPoint);
    } else if der[pos] == 1 || der[pos] > 4 {
      return Err(InvalidEcPoint);
    }
    var curve := CurveFor((typeLen - 1) / 2);
    if curve.None? {
      return Err(UnsupportedKeyLength);
    }
    if oid != Oid(curve.value) {
      return Err(UnsupportedCurve);
    }
    r := Ok((pos, typeLen));
  }

  method DecodePublicKey(der: seq<byte>, x: array<byte>, y: array<byte>, room: nat) returns (r: Result<nat, DerError>)
    requires room <= x.Length && room <= y.Length && x != y
    modifies x, y
    ensures match DecodedPublicKey(der, room)
            case Err(e) => r == Err(e) && x[..] == old(x[..]) && y[..] == old(y[..])
            case Ok(p) => r == Ok(|p.x|) && |p.x| == |p.y| <= room
                          && x[..] == Splice(old(x[..]), 0, p.x) && y[..] == Splice(old(y[..]), 0, p.y)
  {
    hide PublicKeyAt, Splice;
    var found := FindPublicKey(der);
    if found.Err? {
      return Err(found.error);
    }
    var (pos, typeLen) := found.value;
    ghost var point := der[pos..pos + typeLen];
    if typeLen < 1 || der[pos] != 4 {
      return Err(CompressedEcPoint);
    }
    var keyLen := (typeLen - 1) / 2;
    if room < keyLen {
      return Err(SmallKeyBuffer);
    }
    SubSlice(der, pos, pos + typeLen, 1, 1 + keyLen);
    SubSlice(der, pos, pos + typeLen, 1 + keyLen, 1 + 2 * keyLen);
    pos := pos + 1;
    CopyInto(x, 0, der[pos..pos + keyLen]);
    CopyInto(y, 0, der[pos + keyLen..pos + 2 * keyLen]);
    r := Ok(keyLen);
  }

  /** Decoding a public key undoes encoding it, whatever follows in the buffer. */
  lemma PublicKeyRoundTrip(c: Curve, p: Point, rest: seq<byte>, room: nat)
    requires IsPoint(c, p.x, p.y) && room >= KeyLength(c)
    ensures DecodedPublicKey(PublicForm(c, p) + rest, room) == Ok(p)
  {
    hide TagOf, Tlv, AlgorithmAndPoint;
    var a, b := Tlv(OBJECT_IDENTIFIER, EC_PUBLIC_KEY_OID), Tlv(OBJECT_IDENTIFIER, Oid(c));
    var bits := Tlv(BIT_STRING, PointContent(p.x, p.y));
    PublicLengthIs(c, p);
    ReadNested(SEQUENCE, PublicBody(c, p), rest);
    assert PublicBody(c, p) + rest == Tlv(SEQUENCE, a + b) + (bits + rest);
    ReadNested(SEQUENCE, a + b, bits + rest);
    AlgorithmAndPointWritten(c, p, rest);
    var point := [0x04] + p.x + p.y;
    assert point[1..1 + |p.x|] == p.x && point[1 + |p.x|..1 + 2 * |p.x|] == p.y;
  }

  lemma AlgorithmAndPointWritten(c: Curve, p: Point, rest: seq<byte>)
    requires IsPoint(c, p.x, p.y)
    ensures var a, b := Tlv(OBJECT_IDENTIFIER, EC_PUBLIC_KEY_OID), Tlv(OBJECT_IDENTIFIER, Oid(c));
            AlgorithmAndPoint(a + b + (Tlv(BIT_STRING, PointContent(p.x, p.y)) + rest)) == Ok([0x04] + p.x + p.y)
  {
    hide TagOf, Tlv, CurveAndPoint, Oid;
    var a, b := Tlv(OBJECT_IDENTIFIER, EC_PUBLIC_KEY_OID), Tlv(OBJECT_IDENTIFIER, Oid(c));
    var bits := Tlv(BIT_STRING, PointContent(p.x, p.y));
    assert a + b + (bits + rest) == a + (b + bits + rest);
    TagOfWritten(OBJECT_IDENTIFIER, EC_PUBLIC_KEY_OID, b + bits + rest);
    CurveAndPointWritten(c, p, rest);
  }

  lemma ReadNested(tag: byte, content: seq<byte>, rest: seq<byte>)
    requires 1 <= |content| < 256
    ensures var s := Tlv(tag, content) + rest;
            TagOf(tag, s).Ok? && s[TagOf(tag, s).value.headerLen..] == content + rest
  {
    hide TagOf, Tlv;
    TagOfWritten(tag, content, rest);
    var s := Tlv(tag, content) + rest;
    var h := |Header(tag, |content|)|;
    assert s[h..] == s[h..h + |content|] + s[h + |content|..];
  }

  lemma CurveAndPointWritten(c: Curve, p: Point, rest: seq<byte>)
    requires IsPoint(c, p.x, p.y)
    ensures CurveAndPoint(Tlv(OBJECT_IDENTIFIER, Oid(c)) + Tlv(BIT_STRING, PointContent(p.x, p.y)) + rest)
            == Ok([0x04] + p.x + p.y)
  {
    hide TagOf, Tlv;
    var content := PointContent(p.x, p.y);
    var b, bits := Tlv(OBJECT_IDENTIFIER, Oid(c)), Tlv(BIT_STRING, content);
    assert b + bits + rest == b + (bits + rest);
    TagOfWritten(OBJECT_IDENTIFIER, Oid(c), bits + rest);
    TagOfWritten(BIT_STRING, content, rest);
    assert content[1..] == [0x04] + p.x + p.y;
  }
}
