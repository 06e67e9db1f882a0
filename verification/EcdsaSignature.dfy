/** ECDSA signatures as a DER SEQUENCE of two INTEGERs (section 2.2.3 of RFC 3279). */
module EcdsaSignature {
  import opened Bytes
  import opened Wrappers
  import opened Der
  import opened EccDer
  import Asn1Util

  // Encoding

  /** Both INTEGERs in one SEQUENCE whose length still fits one octet. */
  predicate Fits(r: seq<byte>, s: seq<byte>) {
    && |r| >= 1 && |s| >= 1
    && |IntegerContent(r)| < 0x80 && |IntegerContent(s)| < 0x80
    && |IntegerContent(r)| + |IntegerContent(s)| + 4 <= 0xff
  }

  /** Every signature of an n byte key fits exactly when n is at most 124. */
  lemma FitsUpTo124(n: nat)
    requires n >= 1
    ensures (forall r: seq<byte>, s: seq<byte> :: |r| == n && |s| == n ==> Fits(r, s)) <==> n <= 124
  {
    if n > 124 {
      var top := seq(n, i => 0x80 as byte);
      assert StripZeros(top) == top;
      assert |IntegerContent(top)| == n + 1;
      assert !Fits(top, top);
    }
  }

  /** The DER form of a signature. */
  function SignatureDer(r: seq<byte>, s: seq<byte>): (e: seq<byte>)
    requires Fits(r, s)
  {
    Tlv(SEQUENCE, IntegerTlv(r) + IntegerTlv(s))
  }

  lemma IntegerTlvShape(v: seq<byte>)
    requires |v| >= 1 && |IntegerContent(v)| < 0x80
    ensures var c := IntegerContent(v);
            IntegerTlv(v) == [INTEGER, |c|] + c
  {
  }

  /** What the encoder writes for one value: a single length octet, counted modulo 256. */
  function IntegerBytes(v: seq<byte>): (e: seq<byte>)
    requires |v| >= 1
    ensures |e| == 2 + |IntegerContent(v)|
  {
    [INTEGER, |IntegerContent(v)| % 256] + IntegerContent(v)
  }

  function SequenceBytes(body: seq<byte>): (e: seq<byte>)
    ensures |e| == |body| + (if |body| < 0x80 then 2 else 3)
  {
    if |body| < 0x80 then [SEQUENCE, |body|] + body else [SEQUENCE, 0x81, |body| % 256] + body
  }

  /** What it writes for a signature of any key length. */
  function SignatureBytes(r: seq<byte>, s: seq<byte>): seq<byte>
    requires |r| >= 1 && |s| >= 1
  {
    SequenceBytes(IntegerBytes(r) + IntegerBytes(s))
  }

  lemma BytesAreDer(r: seq<byte>, s: seq<byte>)
    requires Fits(r, s)
    ensures SignatureBytes(r, s) == SignatureDer(r, s)
  {
    hide IntegerTlv, IntegerContent;
    IntegerTlvShape(r);
    IntegerTlvShape(s);
    HeaderShape(SEQUENCE, |IntegerBytes(r) + IntegerBytes(s)|);
  }

  /** ecc_der_encode_ecdsa_integer: the length octet is written as zero and then counted up in place. */
  method EncodeInteger(sig: seq<byte>, der: array<byte>, pos: nat, length: nat)
    returns (ok: bool, pos': nat, length': nat)
    requires |sig| >= 1 && pos + length <= der.Length
    modifies der
    ensures ok == (length >= |IntegerBytes(sig)|)
    ensures ok ==>
              && der[..] == Splice(old(der[..]), pos, IntegerBytes(sig))
              && pos' == pos + |IntegerBytes(sig)| && length' == length - |IntegerBytes(sig)|
    ensures OutsideUnchanged(old(der[..]), der[..], pos, length)
  {
    hide Splice, OutsideUnchanged, IntegerContent, Header;
    ghost var was := der[..];
    ghost var content := IntegerContent(sig);
    HeaderShape(INTEGER, 0);
    ok, pos', length' := AddNextTag(INTEGER, 0, None, der, pos, length);
    if !ok {
      return;
    }
    ghost var header: seq<byte> := [INTEGER, 0];
    assert Header(INTEGER, 0) + [] == header;

    var i := LeadingZeros(sig);
    var keyLength := |sig| - i;
    StripAt(sig, i);
    var pad: seq<byte> := if sig[i] >= 0x80 then [0] else [];
    var value := sig[i..];
    assert content == pad + value;
    CopyInto(der, pos', pad);
    SpliceAppend(was, pos, header, pad);
    SpliceStaysInside(was, pos, header + pad, length);
    pos' := pos' + |pad|;
    length' := length' - |pad|;
    if length' < keyLength {
      ok := false;
      return;
    }
    CopyInto(der, pos', value);
    SpliceAppend(was, pos, header + pad, value);
    assert header + pad + value == header + content;
    pos' := pos' + keyLength;
    length' := length' - keyLength;
    SpliceAt(was, pos, header + content, 1);
    var intLen := (der[pos + 1] + |pad| + keyLength) % 256;
    SpliceUpdate(was, pos, header + content, 1, intLen);
    der[pos + 1] := intLen;
    assert (header + content)[1 := intLen] == IntegerBytes(sig);
    SpliceStaysInside(was, pos, IntegerBytes(sig), length);
  }

  /** The trimming loop: leading zeros are dropped as long as a byte remains. */
  method LeadingZeros(sig: seq<byte>) returns (i: nat)
    requires |sig| >= 1
    ensures i < |sig| && (forall j :: 0 <= j < i ==> sig[j] == 0) && (i == |sig| - 1 || sig[i] != 0)
  {
    i := 0;
    var keyLength := |sig|;
    while sig[i] == 0 && keyLength > 1
      invariant 0 <= i < |sig| && keyLength == |sig| - i
      invariant forall j :: 0 <= j < i ==> sig[j] == 0
    {
      i := i + 1;
      keyLength := keyLength - 1;
    }
  }

  lemma SpliceAt(b: seq<byte>, pos: nat, x: seq<byte>, k: nat)
    requires pos + |x| <= |b| && k < |x|
    ensures Splice(b, pos, x)[pos + k] == x[k]
  {
  }

  /** ecc_der_encode_ecdsa_signature in the build that supports P521.  The header grows in place to three bytes
      when the contents need a second length octet. */
  method Encode(r: seq<byte>, s: seq<byte>, der: array<byte>, length: nat) returns (res: Result<nat, DerError>)
    requires |r| == |s| && length <= der.Length
    modifies der
    ensures |r| == 0 ==> res == Err(InvalidArgument)
    ensures |r| > 0 ==>
              var e := SignatureBytes(r, s);
              && res == (if length >= |e| then Ok(|e|) else Err(SmallDerBuffer))
              && (res.Ok? ==> der[..] == Splice(old(der[..]), 0, e))
              && (Fits(r, s) ==> e == SignatureDer(r, s))
    ensures OutsideUnchanged(old(der[..]), der[..], 0, length)
  {
    hide Splice, OutsideUnchanged, IntegerBytes, IntegerContent, SequenceBytes, SignatureDer;
    ghost var was := der[..];
    SpliceNothing(was, 0);
    SpliceStaysInside(was, 0, [], length);
    if |r| == 0 {
      return Err(InvalidArgument);
    }
    if Fits(r, s) {
      BytesAreDer(r, s);
    }
    ghost var a, b := IntegerBytes(r), IntegerBytes(s);
    ghost var zero: seq<byte> := [SEQUENCE, 0];
    HeaderShape(SEQUENCE, 0);
    var ok, pos, len := AddNextTag(SEQUENCE, 0, None, der, 0, length);
    if !ok {
      return Err(SmallDerBuffer);
    }
    assert Header(SEQUENCE, 0) + [] == zero;

    ok, pos, len := EncodeInteger(r, der, pos, len);
    OutsideAfterSplice(was, 0, zero, der[..], length);
    if !ok {
      return Err(SmallDerBuffer);
    }
    ghost var mid := zero + a;
    SpliceAppend(was, 0, zero, a);
    assert der[..] == Splice(was, 0, mid);

    ok, pos, len := EncodeInteger(s, der, pos, len);
    OutsideAfterSplice(was, 0, mid, der[..], length);
    if !ok {
      return Err(SmallDerBuffer);
    }
    SpliceAppend(was, 0, mid, b);
    assert der[..] == Splice(was, 0, mid + b);
    assert mid + b == zero + (a + b);
    res := SetLength(der, pos, len, length, was, a + b);
  }

  lemma SignatureShape(r: seq<byte>, s: seq<byte>)
    requires Fits(r, s)
    ensures |IntegerTlv(r)| >= 3 && |IntegerTlv(s)| >= 3 && |IntegerTlv(r) + IntegerTlv(s)| <= 0xff
    ensures SignatureDer(r, s) == Header(SEQUENCE, |IntegerTlv(r) + IntegerTlv(s)|) + (IntegerTlv(r) + IntegerTlv(s))
  {
    IntegerTlvShape(r);
    IntegerTlvShape(s);
  }

  /** The end of the encoder: set the sequence length, moving the contents up if it takes two octets. */
  method SetLength(der: array<byte>, pos: nat, len: nat, length: nat, ghost was: seq<byte>, ghost body: seq<byte>)
    returns (res: Result<nat, DerError>)
    requires pos + len == length <= der.Length == |was| && pos == 2 + |body|
    requires der[..] == Splice(was, 0, [SEQUENCE, 0] + body)
    requires OutsideUnchanged(was, der[..], 0, length)
    modifies der
    ensures var e := SequenceBytes(body);
            && res == (if length >= |e| then Ok(|e|) else Err(SmallDerBuffer))
            && (res.Ok? ==> der[..] == Splice(was, 0, e))
    ensures OutsideUnchanged(was, der[..], 0, length)
  {
    hide Splice, OutsideUnchanged;
    var totalLen := pos - 2;
    ghost var short: seq<byte> := [SEQUENCE, totalLen % 256] + body;
    SpliceUpdate(was, 0, [SEQUENCE, 0] + body, 1, totalLen % 256);
    assert ([SEQUENCE, 0] + body)[1 := totalLen % 256] == short;
    der[1] := totalLen % 256;
    SpliceStaysInside(was, 0, short, length);
    if totalLen >= 0x80 {
      if len == 0 {
        return Err(SmallDerBuffer);
      }
      ghost var e: seq<byte> := [SEQUENCE, 0x81, totalLen % 256] + body;
      ShiftUp(was, totalLen % 256, body);
      var moved := der[1..totalLen + 2];
      CopyInto(der, 2, moved);
      der[1] := 0x81;
      assert der[..] == Splice(was, 0, e);
      SpliceStaysInside(was, 0, e, length);
      totalLen := totalLen + 1;
    }
    res := Ok(totalLen + 2);
  }

  /** Moving the length octet and the contents up by one and putting 0x81 before them. */
  lemma ShiftUp(was: seq<byte>, t: byte, body: seq<byte>)
    requires |body| + 3 <= |was|
    ensures var b := Splice(was, 0, [SEQUENCE, t] + body);
            && b[1..|body| + 2] == [t] + body
            && Splice(b, 2, [t] + body)[1 := 0x81] == Splice(was, 0, [SEQUENCE, 0x81, t] + body)
  {
    var b := Splice(was, 0, [SEQUENCE, t] + body);
    var l := Splice(b, 2, [t] + body)[1 := 0x81];
    var r := Splice(was, 0, [SEQUENCE, 0x81, t] + body);
    assert |l| == |r|;
    forall i | 0 <= i < |l| ensures l[i] == r[i] {
    }
  }

  // Decoding

  /** One INTEGER at the front of s as an n byte value, and what follows it. */
  function IntegerAt(s: seq<byte>, n: nat): (res: Result<(seq<byte>, seq<byte>), DerError>)
    ensures res.Ok? ==> |res.value.0| == n && |res.value.1| < |s|
  {
    match TagOf(INTEGER, s)
    case Err(e) => Err(e)
    case Ok(Tag(h, len)) =>
      if len > n + 1 || (len > n && s[h] != 0) then Err(SigTooLong)
      else
        var digits := if len > n then s[h + 1..h + len] else s[h..h + len];
        Ok((Zeros(n - |digits|) + digits, s[h + len..]))
  }

  /** A signature at the front of der: nothing may follow the second INTEGER inside the SEQUENCE. */
  function SignatureAt(der: seq<byte>, n: nat): Result<(seq<byte>, seq<byte>), DerError> {
    match TagOf(SEQUENCE, der)
    case Err(e) => Err(e)
    case Ok(Tag(h, len)) =>
      match IntegerAt(der[h..h + len], n)
      case Err(e) => Err(e)
      case Ok((r, rest)) =>
        match IntegerAt(rest, n)
        case Err(e) => Err(e)
        case Ok((s, rest')) => if rest' == [] then Ok((r, s)) else Err(InvalidSignature)
  }

  /** v is the n byte value of INTEGER contents: with zeros before them, or without their padding zero. */
  predicate Extends(content: seq<byte>, v: seq<byte>) {
    (|content| <= |v| && v == Zeros(|v| - |content|) + content) || content == [0] + v
  }

  /** der starts with a SEQUENCE of exactly two INTEGERs with the values r and s. */
  ghost predicate Holds(der: seq<byte>, r: seq<byte>, s: seq<byte>) {
    exists body, rest, a, more, b ::
      Reads(0x30, der, body, rest) && Reads(0x02, body, a, more) && Reads(0x02, more, b, [])
      && Extends(a, r) && Extends(b, s)
  }

  lemma IntegerAtExact(t: seq<byte>, v: seq<byte>, more: seq<byte>)
    ensures IntegerAt(t, |v|) == Ok((v, more)) <==> exists a :: Reads(0x02, t, a, more) && Extends(a, v)
  {
    hide TagOf, Reads, Extends;
    if TagOf(0x02, t).Ok? {
      var Tag(h, len) := TagOf(0x02, t).value;
      ReadsIsTagOf(0x02, t, t[h..h + len], t[h + len..]);
      ValueExact(t[h..h + len], v);
    }
    if a :| Reads(0x02, t, a, more) && Extends(a, v) {
      ReadsIsTagOf(0x02, t, a, more);
    }
  }

  /** The value that the decoder makes of contents, as an n byte string. */
  lemma ValueExact(content: seq<byte>, v: seq<byte>)
    ensures Extends(content, v)
            <==> if |content| <= |v| then v == Zeros(|v| - |content|) + content
                 else |content| == |v| + 1 && content[0] == 0 && v == Zeros(0) + content[1..]
  {
    if |content| == |v| + 1 {
      assert content == [content[0]] + content[1..];
      assert Zeros(0) + content[1..] == content[1..];
    }
  }

  /** A signature decodes to r and s if and only if the buffer holds exactly them. */
  lemma DecodesExactly(der: seq<byte>, r: seq<byte>, s: seq<byte>)
    requires |r| == |s|
    ensures SignatureAt(der, |r|) == Ok((r, s)) <==> Holds(der, r, s)
  {
    hide TagOf, Reads, IntegerAt, Extends;
    if SignatureAt(der, |r|) == Ok((r, s)) {
      var Tag(h, len) := TagOf(0x30, der).value;
      var body := der[h..h + len];
      ReadsIsTagOf(0x30, der, body, der[h + len..]);
      var more := IntegerAt(body, |r|).value.1;
      IntegerAtExact(body, r, more);
      IntegerAtExact(more, s, []);
    }
    if body, rest, a, more, b :| Reads(0x30, der, body, rest) && Reads(0x02, body, a, more) && Reads(0x02, more, b, [])
                                 && Extends(a, r) && Extends(b, s) {
      ReadsIsTagOf(0x30, der, body, rest);
      IntegerAtExact(body, r, more);
      IntegerAtExact(more, s, []);
    }
  }

  /** ecc_der_decode_ecdsa_integer: cursor and remaining length move past the INTEGER. */
  method DecodeInteger(mem: seq<byte>, pos: nat, length: nat, sig: array<byte>, keyLength: nat)
    returns (error: Option<DerError>, pos': nat, length': nat)
    requires pos + length <= |mem| && keyLength <= sig.Length
    modifies sig
    ensures match IntegerAt(mem[pos..pos + length], keyLength)
            case Err(e) => error == Some(e)
            case Ok((v, rest)) => error == None && pos' + length' == pos + length && length' == |rest|
                                  && sig[..keyLength] == v
    ensures sig[keyLength..] == old(sig[keyLength..])
  {
    hide TagOf, Splice;
    var typeLen;
    error, pos', length', typeLen := GetNextTag(INTEGER, mem, pos, length);
    if error.Some? {
      return;
    }
    if typeLen > keyLength + 1 {
      return Some(SigTooLong), pos', length';
    }
    if typeLen > keyLength {
      if mem[pos'] != 0 {
        return Some(SigTooLong), pos', length';
      }
      pos', length', typeLen := pos' + 1, length' - 1, typeLen - 1;
    }
    var digits := mem[pos'..pos' + typeLen];
    SubSlice(mem, pos, pos + length, pos' - pos, pos' - pos + typeLen);
    SpliceFront(sig[..], Zeros(keyLength - typeLen) + digits);
    CopyInto(sig, 0, Zeros(keyLength - typeLen) + digits);
    assert sig[..keyLength] == sig[..][..keyLength] && sig[keyLength..] == sig[..][keyLength..];
    pos', length' := pos' + typeLen, length' - typeLen;
  }

  /** ecc_der_decode_ecdsa_signature. */
  method Decode(der: seq<byte>, sigR: array<byte>, sigS: array<byte>, keyLength: nat)
    returns (error: Option<DerError>)
    requires keyLength <= sigR.Length && keyLength <= sigS.Length && sigR != sigS
    modifies sigR, sigS
    ensures match SignatureAt(der, keyLength)
            case Err(e) => error == Some(e)
            case Ok((r, s)) => error == None && sigR[..keyLength] == r && sigS[..keyLength] == s
    ensures sigR[keyLength..] == old(sigR[keyLength..]) && sigS[keyLength..] == old(sigS[keyLength..])
  {
    hide IntegerAt, TagOf;
    assert der[0..|der|] == der;
    var pos, length, typeLen;
    error, pos, length, typeLen := GetNextTag(SEQUENCE, der, 0, |der|);
    if error.Some? {
      return;
    }
    ghost var body := der[pos..pos + typeLen];
    error, pos, typeLen := DecodeInteger(der, pos, typeLen, sigR, keyLength);
    if error.Some? {
      return;
    }
    RestOfBody(body, keyLength);
    assert der[pos..pos + typeLen] == IntegerAt(body, keyLength).value.1;
    error, pos, typeLen := DecodeInteger(der, pos, typeLen, sigS, keyLength);
    if error.Some? {
      return;
    }
    if typeLen != 0 {
      return Some(InvalidSignature);
    }
  }

  lemma RestOfBody(s: seq<byte>, n: nat)
    requires IntegerAt(s, n).Ok?
    ensures var rest := IntegerAt(s, n).value.1;
            |rest| <= |s| && rest == s[|s| - |rest|..]
  {
  }

  /** The value read is the unsigned number the accepted contents spell, whatever zeros they carry. */
  lemma IntegerAtValue(s: seq<byte>, n: nat)
    requires IntegerAt(s, n).Ok?
    ensures TagOf(INTEGER, s).Ok?
    ensures var t := TagOf(INTEGER, s).value;
            BE(IntegerAt(s, n).value.0) == BE(s[t.headerLen..t.headerLen + t.typeLen])
  {
    hide BE;
    var t := TagOf(INTEGER, s).value;
    var content := s[t.headerLen..t.headerLen + t.typeLen];
    if t.typeLen > n {
      assert content == [0] + content[1..];
      BELeadingZero(content[1..]);
      assert Zeros(0) + content[1..] == content[1..];
    } else {
      ZerosKeepValue(n - t.typeLen, content);
    }
  }

  lemma {:induction false} ZerosKeepValue(k: nat, s: seq<byte>)
    ensures BE(Zeros(k) + s) == BE(s)
    decreases k
  {
    if k == 0 {
      assert Zeros(0) + s == s;
    } else {
      assert Zeros(k) + s == [0] + (Zeros(k - 1) + s);
      BELeadingZero(Zeros(k - 1) + s);
      ZerosKeepValue(k - 1, s);
    }
  }

  lemma ReadWrittenInteger(v: seq<byte>, rest: seq<byte>)
    requires |v| >= 1 && |IntegerContent(v)| < 0x80
    ensures IntegerAt(IntegerTlv(v) + rest, |v|) == Ok((v, rest))
  {
    hide LengthOctets;
    var c := IntegerContent(v);
    var t := StripZeros(v);
    TagOfWritten(INTEGER, c, rest);
    StripFacts(v);
    if |c| > |v| {
      assert c[1..] == v;
      assert Zeros(0) + v == v;
    } else if t[0] >= 0x80 {
      assert Zeros(|v| - |c|) + ([0] + t) == Zeros(|v| - |t|) + t;
    }
  }

  /** Decoding undoes encoding for every r and s of the same length, even with bytes after the signature. */
  lemma DecodeUndoesEncode(r: seq<byte>, s: seq<byte>, rest: seq<byte>)
    requires |r| == |s| && Fits(r, s)
    ensures SignatureAt(SignatureDer(r, s) + rest, |r|) == Ok((r, s))
  {
    hide IntegerAt, TagOf, IntegerTlv, IntegerContent, Tlv;
    SignatureShape(r, s);
    TagOfWritten(SEQUENCE, IntegerTlv(r) + IntegerTlv(s), rest);
    ReadWrittenInteger(r, IntegerTlv(s));
    ReadWrittenInteger(s, []);
    assert IntegerTlv(s) + [] == IntegerTlv(s);
  }

  /** e is a DER signature with the numbers a and b. */
  ghost predicate IsSignature(e: seq<byte>, a: nat, b: nat) {
    exists ea, eb :: IsInteger(ea, a) && IsInteger(eb, b) && |ea + eb| < 0x1_0000_0000 && e == Tlv(0x30, ea + eb)
  }

  /** The encoder's output is the one DER form of the two numbers. */
  lemma SignatureDerUnique(r: seq<byte>, s: seq<byte>, e: seq<byte>)
    requires Fits(r, s)
    ensures IsSignature(e, BE(r), BE(s)) <==> e == SignatureDer(r, s)
  {
    hide IntegerTlv, IntegerContent, IsInteger, BE, Tlv;
    SignatureShape(r, s);
    IntegerTlvUnique(r, IntegerTlv(r));
    IntegerTlvUnique(s, IntegerTlv(s));
    if IsSignature(e, BE(r), BE(s)) {
      var ea, eb :| IsInteger(ea, BE(r)) && IsInteger(eb, BE(s)) && |ea + eb| < 0x1_0000_0000
                    && e == Tlv(0x30, ea + eb);
      IntegerTlvUnique(r, ea);
      IntegerTlvUnique(s, eb);
    }
  }

  /** The encoder's output is a DER signature of its two values if and only if they fit, which all values of up to 124
      bytes do; for longer ones a length octet is too small. */
  lemma EncodesDerExactly(r: seq<byte>, s: seq<byte>)
    requires 1 <= |r| < 0x7fff_ff00 && 1 <= |s| < 0x7fff_ff00
    ensures IsSignature(SignatureBytes(r, s), BE(r), BE(s)) <==> Fits(r, s)
  {
    hide IntegerTlv, IntegerContent, IsInteger, BE, Tlv, SignatureDer, SignatureBytes, Fits;
    if Fits(r, s) {
      BytesAreDer(r, s);
      SignatureDerUnique(r, s, SignatureBytes(r, s));
    }
    if IsSignature(SignatureBytes(r, s), BE(r), BE(s)) {
      var ea, eb :| IsInteger(ea, BE(r)) && IsInteger(eb, BE(s)) && |ea + eb| < 0x1_0000_0000
                    && SignatureBytes(r, s) == Tlv(0x30, ea + eb);
      IntegerTlvUnique(r, ea);
      IntegerTlvUnique(s, eb);
      DerIsLonger(r, s);
    }
  }

  /** Without a fit, the DER form is longer than what the encoder writes. */
  lemma DerIsLonger(r: seq<byte>, s: seq<byte>)
    requires 1 <= |r| < 0x7fff_ff00 && 1 <= |s| < 0x7fff_ff00 && |IntegerTlv(r) + IntegerTlv(s)| < 0x1_0000_0000
    ensures !Fits(r, s) ==> |Tlv(SEQUENCE, IntegerTlv(r) + IntegerTlv(s))| > |SignatureBytes(r, s)|
  {
    hide Tlv, IntegerContent, SequenceBytes, IntegerBytes;
    TlvSize(INTEGER, IntegerContent(r));
    TlvSize(INTEGER, IntegerContent(s));
    TlvSize(SEQUENCE, IntegerTlv(r) + IntegerTlv(s));
  }

  lemma TlvSize(tag: byte, content: seq<byte>)
    requires |content| < 0x1_0000_0000
    ensures |Tlv(tag, content)| >= |content| + (if |content| < 0x80 then 2 else if |content| < 0x100 then 3 else 4)
  {
  }

  /** The length probe tells where a signature ends, whatever follows it. */
  lemma ProbeFindsSignature(r: seq<byte>, s: seq<byte>, rest: seq<byte>)
    requires Fits(r, s)
    ensures Asn1Util.EncodedLength(SignatureDer(r, s) + rest) == |SignatureDer(r, s)|
  {
    hide Tlv, IntegerTlv, Asn1Util.EncodedLength;
    SignatureShape(r, s);
    Asn1Util.ProbeFindsEncoding(SEQUENCE, IntegerTlv(r) + IntegerTlv(s), rest);
  }

  /** ecc_der_get_ecdsa_max_signature_length. */
  function MaxLength(keyLength: nat): Option<nat> {
    match keyLength
    case 32 => Some(72)
    case 48 => Some(104)
    case 66 => Some(139)
    case _ => None
  }

  /** Two 66 byte values that take more than the declared maximum: one with its top bit set, the other without nine
      leading zero bits. */
  predicate TooLong(r: seq<byte>, s: seq<byte>)
    requires |r| == |s| == 66
  {
    (r[0] >= 0x80 && !(s[0] == 0 && s[1] < 0x80)) || (s[0] >= 0x80 && !(r[0] == 0 && r[1] < 0x80))
  }

  /** The maximum holds for every P256 and P384 signature, and for 66 byte values exactly when they are not too long;
      those of P521, whose first byte is at most one, never are. */
  lemma MaxLengthHolds(r: seq<byte>, s: seq<byte>)
    requires |r| == |s| && MaxLength(|r|).Some?
    ensures Fits(r, s)
    ensures |SignatureDer(r, s)| <= MaxLength(|r|).value <==> |r| != 66 || !TooLong(r, s)
    ensures |r| == 66 && r[0] <= 1 && s[0] <= 1 ==> !TooLong(r, s)
  {
    hide IntegerTlv;
    ContentSize(r);
    ContentSize(s);
    IntegerTlvShape(r);
    IntegerTlvShape(s);
  }

  /** Such values exist: the maximum is exceeded by two bytes. */
  lemma MaxLengthExceeded()
    ensures var v: seq<byte> := seq(66, _ => 0x80);
            Fits(v, v) && MaxLength(66) == Some(139) && |SignatureDer(v, v)| == 141
  {
    hide IntegerTlv;
    var v: seq<byte> := seq(66, _ => 0x80);
    ContentSize(v);
    IntegerTlvShape(v);
  }

  /** The maxima for P256 and P384 are reached, by values with the top bit set, and other key lengths have none. */
  lemma MaxLengthIsReached(n: nat)
    ensures MaxLength(n).Some? <==> n in {32, 48, 66}
    ensures n in {32, 48} ==>
              var v: seq<byte> := seq(n, _ => 0x80);
              Fits(v, v) && MaxLength(n) == Some(|SignatureDer(v, v)|)
    ensures n == 66 ==>
              var v: seq<byte> := [1] + Zeros(65);
              Fits(v, v) && MaxLength(n) == Some(|SignatureDer(v, v)|)
  {
    hide IntegerTlv;
    if n in {32, 48, 66} {
      var v: seq<byte> := if n == 66 then [1] + Zeros(65) else seq(n, _ => 0x80);
      ContentSize(v);
      IntegerTlvShape(v);
    }
  }

  /** How many bytes INTEGER contents take, from the first two bytes of the value. */
  lemma ContentSize(v: seq<byte>)
    requires |v| >= 2
    ensures |IntegerContent(v)| == |v| + 1 <==> v[0] >= 0x80
    ensures |IntegerContent(v)| >= |v| <==> !(v[0] == 0 && v[1] < 0x80)
    ensures |IntegerContent(v)| <= |v| + 1
  {
    StripFacts(v);
    if v[0] == 0 {
      StripFacts(v[1..]);
    }
  }
}
