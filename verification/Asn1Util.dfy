/** Header parsing, the encoded length probe and 64-bit INTEGERs (core/asn1/asn1_util.c). */
module Asn1Util {
  import opened Bytes
  import opened Wrappers
  import opened Der

  datatype Asn1Error = NotValid | SmallDerBuffer | OutOfRange | UnexpectedTag

  /** ASN1_UTIL_NOT_VALID as a number: it also travels through length probes as if it were a length. */
  const ASN1_UTIL_NOT_VALID: nat := 0x7f00_6502

  datatype ItemHeader = ItemHeader(headerLength: nat, itemLength: nat)

  /** asn1_parse_der_header. */
  function ParseDerHeader(der: seq<byte>): (h: Option<ItemHeader>)
    ensures h.Some? ==> 2 <= h.value.headerLength <= |der|
  {
    if |der| < 2 then None
    else if der[1] < 0x80 then Some(ItemHeader(2, der[1]))
    else if der[1] == 0x81 then
      if |der| < 3 then None else Some(ItemHeader(3, der[2]))
    else if der[1] == 0x82 then
      if |der| < 4 then None else Some(ItemHeader(4, BE(der[2..4])))
    else if der[1] == 0x83 then
      if |der| < 5 then None else Some(ItemHeader(5, BE(der[2..5])))
    else if der[1] == 0x84 then
      if |der| < 6 then None else Some(ItemHeader(6, BE(der[2..6])))
    else None
  }

  /** Parsing undoes writing a header, whatever follows it. */
  lemma ParseWrittenHeader(tag: byte, n: nat, rest: seq<byte>)
    requires n < 0x1_0000_0000
    ensures ParseDerHeader(Header(tag, n) + rest) == Some(ItemHeader(|Header(tag, n)|, n))
  {
    hide BE, ToBE;
    var s := Header(tag, n) + rest;
    var k := |Header(tag, n)| - 2;
    if n >= 0x100 {
      assert Pow256(1) == 256 && Pow256(2) == 0x1_0000 && Pow256(3) == 0x100_0000 && Pow256(4) == 0x1_0000_0000;
      ToBEValue(n, k);
      assert s[2..2 + k] == ToBE(n, k);
    }
  }

  /** asn1_get_item: the contents of the item and what follows them. */
  function GetItem(tag: byte, der: seq<byte>): (r: Result<(seq<byte>, seq<byte>), Asn1Error>) {
    match ParseDerHeader(der)
    case None => Err(NotValid)
    case Some(ItemHeader(header, item)) =>
      if der[0] != tag then Err(UnexpectedTag)
      else if header + item > |der| then Err(SmallDerBuffer)
      else Ok((der[header..header + item], der[header + item..]))
  }

  /** The headers that are understood: the length in one octet, or in one to four after their number. */
  predicate IsHeader(h: seq<byte>, tag: byte, n: nat) {
    || (|h| == 2 && h[0] == tag && h[1] < 0x80 && h[1] == n)
    || (3 <= |h| <= 6 && h[0] == tag && h[1] == 0x80 + (|h| - 2) && BE(h[2..]) == n)
  }

  /** An item is got if and only if the buffer is such a header, the contents and what follows. */
  lemma GetItemExact(tag: byte, der: seq<byte>, content: seq<byte>, rest: seq<byte>)
    ensures GetItem(tag, der) == Ok((content, rest))
            <==> exists h :: IsHeader(h, tag, |content|) && der == h + content + rest
  {
    hide BE;
    if GetItem(tag, der) == Ok((content, rest)) {
      var n := ParseDerHeader(der).value.headerLength;
      HeaderExact(der, n, |content|);
      assert der == der[..n] + content + rest;
    }
    if h :| IsHeader(h, tag, |content|) && der == h + content + rest {
      assert der[..|h|] == h && der[|h|..|h| + |content|] == content && der[|h| + |content|..] == rest;
      assert der[0] == h[0] && der[1] == h[1];
      HeaderExact(der, |h|, |content|);
    }
  }

  lemma HeaderExact(der: seq<byte>, headerLength: nat, n: nat)
    requires 2 <= headerLength <= |der|
    ensures ParseDerHeader(der) == Some(ItemHeader(headerLength, n)) <==> IsHeader(der[..headerLength], der[0], n)
  {
    hide BE;
    var h := der[..headerLength];
    assert h[0] == der[0] && h[1] == der[1] && h[2..] == der[2..headerLength];
    if headerLength == 3 {
      OneByte(h[2]);
      assert h[2..] == [h[2]] && h[2] == der[2];
    }
  }

  lemma OneByte(b: byte)
    ensures BE([b]) == b
  {
    assert [b][..0] == [];
  }

  /** Why an item is refused. */
  lemma ItemRefused(tag: byte, der: seq<byte>)
    ensures GetItem(tag, der) == Err(NotValid) <==> forall n :: 2 <= n <= |der| ==> !HasHeader(der, n)
    ensures GetItem(tag, der) == Err(UnexpectedTag) ==> |der| >= 2 && der[0] != tag
    ensures GetItem(tag, der) == Err(SmallDerBuffer) ==> |der| >= 2 && der[0] == tag
    ensures GetItem(tag, der).Err? ==> GetItem(tag, der).error in {NotValid, UnexpectedTag, SmallDerBuffer}
  {
    hide BE;
    if ParseDerHeader(der).Some? {
      var ItemHeader(n, len) := ParseDerHeader(der).value;
      HeaderExact(der, n, len);
      assert HasHeader(der, n);
    }
    forall n | 2 <= n <= |der| && HasHeader(der, n) ensures ParseDerHeader(der).Some? {
      HeaderExact(der, n, if n == 2 then der[1] as int else BE(der[..n][2..]));
    }
  }

  predicate HasHeader(der: seq<byte>, n: nat)
    requires 2 <= n <= |der|
  {
    if n == 2 then der[1] < 0x80 else n <= 6 && der[1] == 0x80 + (n - 2)
  }

  lemma GetWrittenItem(tag: byte, content: seq<byte>, rest: seq<byte>)
    requires |content| < 0x1_0000_0000
    ensures GetItem(tag, Tlv(tag, content) + rest) == Ok((content, rest))
  {
    hide ParseDerHeader, LengthOctets;
    var h := Header(tag, |content|);
    var s := Tlv(tag, content) + rest;
    assert s == h + (content + rest);
    ParseWrittenHeader(tag, |content|, content + rest);
    assert s[|h|..|h| + |content|] == content;
    assert s[|h| + |content|..] == rest;
  }

  // The length probe

  /** asn1_get_der_item_len; its error code is the number the caller sees. */
  function DerItemLength(der: seq<byte>): nat {
    match ParseDerHeader(der)
    case None => ASN1_UTIL_NOT_VALID
    case Some(ItemHeader(header, item)) => header + item
  }

  /** asn1_get_der_encoded_length on a buffer of |der| bytes. */
  function EncodedLength(der: seq<byte>): nat {
    var length := DerItemLength(der);
    if |der| <= length then |der| else length
  }

  /** On any buffer that starts with an encoding, the probe returns that encoding's length.  Lengths stay
      below 2^31, which is as far as the C int they are computed in goes. */
  lemma ProbeFindsEncoding(tag: byte, content: seq<byte>, rest: seq<byte>)
    requires |content| < 0x7fff_fff9
    ensures EncodedLength(Tlv(tag, content) + rest) == |Tlv(tag, content)| < 0x8000_0000
  {
    hide ParseDerHeader;
    assert Tlv(tag, content) + rest == Header(tag, |content|) + (content + rest);
    ParseWrittenHeader(tag, |content|, content + rest);
  }

  /** A buffer whose length cannot be determined is reported whole, unless it is longer than the number that
      stands for the error. */
  lemma ProbeUndetermined(der: seq<byte>)
    requires ParseDerHeader(der) == None
    ensures EncodedLength(der) == |der| <==> |der| <= 0x7f00_6502
  {
  }

  // INTEGERs

  type uint64 = x: int | 0 <= x < 0x1_0000_0000_0000_0000

  /** value >> (8 * k). */
  function ShiftRight(value: nat, k: nat): nat {
    if k == 0 then value else ShiftRight(value / 256, k - 1)
  }

  lemma {:induction false} ToBEAt(value: nat, n: nat, j: nat)
    requires j < n
    ensures ToBE(value, n)[j] == ShiftRight(value, n - 1 - j) % 256
    decreases n
  {
    if j < n - 1 {
      ToBEAt(value / 256, n - 1, j);
    }
  }

  /** The DER form of a value. */
  function Encoded(value: uint64): (e: seq<byte>) {
    IntegerTlv(ToBE(value, 8))
  }

  lemma EncodedShape(value: uint64)
    ensures var c := IntegerContent(ToBE(value, 8));
            && |c| <= 9 && Encoded(value) == [INTEGER, |c|] + c
  {
    hide ToBE, IntegerContent;
  }

  /** asn1_encode_integer: fails exactly when the buffer is shorter than the encoding. */
  method EncodeInteger(value: uint64, der: array<byte>, length: nat) returns (r: Result<nat, Asn1Error>)
    requires length <= der.Length
    modifies der
    ensures r == if length >= |Encoded(value)| then Ok(|Encoded(value)|) else Err(SmallDerBuffer)
    ensures r.Ok? ==> der[..] == Splice(old(der[..]), 0, Encoded(value))
    ensures OutsideUnchanged(old(der[..]), der[..], 0, length)
  {
    hide Splice, ToBE, StripZeros, IntegerContent, Encoded, OutsideUnchanged;
    ghost var was := der[..];
    ghost var bytes := ToBE(value, 8);
    ghost var content := IntegerContent(bytes);
    EncodedShape(value);
    if length < 3 {
      SpliceNothing(was, 0);
      SpliceStaysInside(was, 0, [], length);
      return Err(SmallDerBuffer);
    }
    var i := LeadingShift(value);
    ContentAt(bytes, 7 - i / 8);
    ToBEAt(value, 8, 7 - i / 8);
    var derLength := 0;
    SpliceNothing(was, 2);
    assert content[..0] == [];
    if ShiftRight(value, i / 8) % 256 >= 0x80 {
      CopyInto(der, 2, [0]);
      derLength := 1;
      assert content[..1] == [0];
    }
    var ok := AddBytes(value, i, derLength, content, der, length, was);
    if !ok {
      return Err(SmallDerBuffer);
    }
    derLength := derLength + i / 8 + 1;
    var header: seq<byte> := [INTEGER, derLength];
    assert Splice(Splice(was, 2, content), 0, header) == Splice(was, 0, header + content) by {
      SpliceDeferred(was, 0, header, content);
    }
    SpliceStaysInside(was, 0, header + content, length);
    CopyInto(der, 0, header);
    r := Ok(2 + derLength);
  }

  /** The loop that adds all bytes from the first non-zero one, and always the last. */
  method AddBytes(value: uint64, first: nat, pad: nat, ghost content: seq<byte>, der: array<byte>, length: nat,
                  ghost was: seq<byte>)
    returns (ok: bool)
    requires first % 8 == 0 && first <= 56 && pad <= 1 && |content| == first / 8 + 1 + pad
    requires forall k :: pad <= k < |content| ==> content[k] == ToBE(value, 8)[7 - first / 8 - pad + k]
    requires 3 <= length <= der.Length == |was| && der[..] == Splice(was, 2, content[..pad])
    modifies der
    ensures ok == (length >= 2 + |content|)
    ensures ok ==> der[..] == Splice(was, 2, content)
    ensures OutsideUnchanged(was, der[..], 0, length)
  {
    hide Splice, ToBE, OutsideUnchanged;
    var i, derLength := first + 8, pad;
    while true
      invariant pad <= derLength <= |content| && 2 + derLength <= length
      invariant i % 8 == 0 && 0 < i <= 64
      invariant |content| - derLength == i / 8
      invariant der[..] == Splice(was, 2, content[..derLength])
      decreases i
    {
      SpliceStaysInside(was, 2, content[..derLength], length - 2);
      InsideLarger(was, der[..], 2, length - 2, 0, length);
      i := i - 8;
      if length > 2 + derLength {
        ToBEAt(value, 8, 7 - i / 8);
        SpliceAppend(was, 2, content[..derLength], [content[derLength]]);
        assert content[..derLength] + [content[derLength]] == content[..derLength + 1];
        CopyInto(der, 2 + derLength, [ShiftRight(value, i / 8) % 256]);
        derLength := derLength + 1;
      } else {
        return false;
      }
      if i == 0 {
        break;
      }
    }
    assert content[..derLength] == content;
    SpliceStaysInside(was, 2, content, length - 2);
    InsideLarger(was, der[..], 2, length - 2, 0, length);
    ok := true;
  }

  /** The shift that brings the first byte of the value down: its first non-zero byte, or its last byte. */
  method LeadingShift(value: uint64) returns (i: nat)
    ensures i % 8 == 0 && i <= 56
    ensures StripZeros(ToBE(value, 8)) == ToBE(value, 8)[7 - i / 8..]
  {
    i := 56;
    ghost var bytes := ToBE(value, 8);
    while i > 0 && ShiftRight(value, i / 8) % 256 == 0
      invariant i % 8 == 0 && i <= 56
      invariant forall j :: 0 <= j < 7 - i / 8 ==> bytes[j] == 0
    {
      ToBEAt(value, 8, 7 - i / 8);
      i := i - 8;
    }
    ToBEAt(value, 8, 7 - i / 8);
    StripAt(bytes, 7 - i / 8);
  }

  /** Byte by byte: an optional zero and then the value without its leading zeros. */
  lemma ContentAt(bytes: seq<byte>, m: nat)
    requires |bytes| == 8 && m <= 7 && StripZeros(bytes) == bytes[m..]
    ensures var pad := if bytes[m] >= 0x80 then 1 else 0;
            var c := IntegerContent(bytes);
            && |c| == 8 - m + pad
            && (pad == 1 ==> c[0] == 0)
            && forall k :: pad <= k < |c| ==> c[k] == bytes[m - pad + k]
  {
  }

  /** Which contents stand for a 64-bit number, and which one.  The sign is looked at even when there are none, in the
      byte that follows. */
  function NumberOf(content: seq<byte>, next: byte): Result<nat, Asn1Error> {
    if (content + [next])[0] >= 0x80 || |content| > 9 || (|content| == 9 && content[0] != 0) then Err(OutOfRange)
    else Ok(BE(content))
  }

  /** What asn1_decode_integer returns; `beyond` is the byte that follows the buffer in memory. */
  function Decoded(der: seq<byte>, beyond: byte): Result<nat, Asn1Error> {
    match GetItem(INTEGER, der)
    case Err(e) => Err(e)
    case Ok((content, rest)) => NumberOf(content, (rest + [beyond])[0])
  }

  /** The answer depends on the buffer alone if and only if the buffer does not end with an empty INTEGER. */
  lemma DecodingStaysInside(der: seq<byte>)
    ensures (forall b: byte, b': byte :: Decoded(der, b) == Decoded(der, b'))
            <==> GetItem(INTEGER, der) != Ok(([], []))
  {
    hide GetItem, BE;
    if GetItem(INTEGER, der) == Ok(([], [])) {
      assert Decoded(der, 0) != Decoded(der, 0x80);
    }
  }

  /** A number is decoded if and only if the buffer starts with an INTEGER of at most nine bytes whose top bit is clear
      and whose value, in 64 bits, is that number. */
  lemma DecodesExactly(der: seq<byte>, beyond: byte, value: nat)
    ensures Decoded(der, beyond) == Ok(value)
            <==> exists h, content, rest ::
                   IsHeader(h, 0x02, |content|) && der == h + content + rest && |content| <= 9
                   && BE(content) == value < 0x1_0000_0000_0000_0000 && (content + rest + [beyond])[0] < 0x80
  {
    hide BE, GetItem, IsHeader;
    if Decoded(der, beyond) == Ok(value) {
      var (content, rest) := GetItem(0x02, der).value;
      GetItemExact(0x02, der, content, rest);
      var h :| IsHeader(h, 0x02, |content|) && der == h + content + rest;
      NumberFits(content);
      assert (content + rest + [beyond])[0] == (content + [(rest + [beyond])[0]])[0];
    }
    if h, content, rest :|
        IsHeader(h, 0x02, |content|) && der == h + content + rest && |content| <= 9
        && BE(content) == value < 0x1_0000_0000_0000_0000 && (content + rest + [beyond])[0] < 0x80 {
      GetItemExact(0x02, der, content, rest);
      assert (content + rest + [beyond])[0] == (content + [(rest + [beyond])[0]])[0];
      if |content| == 9 {
        TopByteBounds(content);
        assert Pow256(8) == 256 * Pow256(7) && Pow256(7) == 256 * Pow256(6) && Pow256(6) == 256 * Pow256(5)
            && Pow256(5) == 256 * Pow256(4) && Pow256(4) == 0x1_0000_0000;
      }
    }
  }

  /** A buffer that does: two bytes long. */
  lemma EmptyIntegerAtEnd()
    ensures GetItem(INTEGER, [INTEGER, 0]) == Ok(([], []))
  {
    GetWrittenItem(INTEGER, [], []);
    assert Tlv(INTEGER, []) + [] == [INTEGER, 0];
  }

  /** asn1_decode_integer. */
  method DecodeInteger(der: seq<byte>, beyond: byte) returns (r: Result<uint64, Asn1Error>)
    ensures r == Decoded(der, beyond)
  {
    var item := GetItem(INTEGER, der);
    if item.Err? {
      return Err(item.error);
    }
    var (content, rest) := item.value;
    var mem := content + rest + [beyond];
    assert mem[0] == (content + [(rest + [beyond])[0]])[0];
    if mem[0] >= 0x80 {
      return Err(OutOfRange);
    }
    if |content| > 9 || (|content| == 9 && mem[0] != 0) {
      return Err(OutOfRange);
    }
    NumberFits(content);
    var tmp: uint64 := 0;
    for i := 0 to |content|
      invariant tmp == BE(content[..i])
    {
      PrefixFits(content, i + 1);
      assert content[..i + 1][..i] == content[..i];
      tmp := tmp * 256 % 0x1_0000_0000_0000_0000 + mem[i];
    }
    assert content[..|content|] == content;
    r := Ok(tmp);
  }

  lemma NumberFits(content: seq<byte>)
    requires |content| <= 8 || (|content| == 9 && content[0] == 0)
    ensures BE(content) < 0x1_0000_0000_0000_0000
  {
    hide BE;
    assert Pow256(8) == 256 * Pow256(7) && Pow256(7) == 256 * Pow256(6) && Pow256(6) == 256 * Pow256(5)
        && Pow256(5) == 256 * Pow256(4) && Pow256(4) == 0x1_0000_0000;
    if |content| == 9 {
      assert content == [0] + content[1..];
      BELeadingZero(content[1..]);
      BEBound(content[1..]);
    } else {
      BEBound(content);
      Pow256Monotone(|content|, 8);
    }
  }

  lemma {:induction false} PrefixFits(content: seq<byte>, i: nat)
    requires 1 <= i <= |content| && BE(content) < 0x1_0000_0000_0000_0000
    ensures BE(content[..i]) < 0x1_0000_0000_0000_0000
    decreases |content|
  {
    var n := |content|;
    if i < n {
      PrefixFits(content[..n - 1], i);
      assert content[..n - 1][..i] == content[..i];
    } else {
      assert content[..i] == content;
    }
  }

  /** Decoding undoes encoding for every 64-bit value, whatever bytes follow. */
  lemma DecodeUndoesEncode(value: uint64, rest: seq<byte>, beyond: byte)
    ensures Decoded(Encoded(value) + rest, beyond) == Ok(value)
  {
    hide BE, ToBE, StripZeros, GetItem;
    var bytes := ToBE(value, 8);
    var c := IntegerContent(bytes);
    GetWrittenItem(INTEGER, c, rest);
    IntegerContentIsMinimal(bytes);
    assert Pow256(8) == 256 * Pow256(7) && Pow256(7) == 256 * Pow256(6) && Pow256(6) == 256 * Pow256(5)
        && Pow256(5) == 256 * Pow256(4) && Pow256(4) == 0x1_0000_0000;
    ToBEValue(value, 8);
    BEBound(c);
  }

  /** The encoding is the one minimal non-negative INTEGER of X.690 section 8.3.2 with that value. */
  lemma EncodedIsTheDerForm(value: uint64, e: seq<byte>)
    ensures IsInteger(e, value) <==> e == Encoded(value)
  {
    hide BE, ToBE, IntegerTlv, IsInteger;
    assert Pow256(8) == 256 * Pow256(7) && Pow256(7) == 256 * Pow256(6) && Pow256(6) == 256 * Pow256(5)
        && Pow256(5) == 256 * Pow256(4) && Pow256(4) == 0x1_0000_0000;
    ToBEValue(value, 8);
    IntegerTlvUnique(ToBE(value, 8), e);
  }
}
