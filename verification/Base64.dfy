/** The base64 encoder that needs no external library (core/asn1/base64_core.c), against section 4 of RFC 4648. */
module Base64 {
  import opened Bytes
  import opened Wrappers

  type sextet = x: int | 0 <= x < 64

  const PAD: byte := 0x3D

  /** The base64 alphabet. */
  function Letter(i: sextet): (c: byte)
    ensures c != PAD && c != 0
  {
    if i < 26 then 0x41 + i
    else if i < 52 then 0x61 + (i - 26)
    else if i < 62 then 0x30 + (i - 52)
    else if i == 62 then 0x2B else 0x2F
  }

  /** The alphabet of section 4 of RFC 4648. */
  lemma LettersAreTheAlphabet(i: sextet)
    ensures i < 26 ==> Letter(i) as char == ('A' as int + i) as char
    ensures 26 <= i < 52 ==> Letter(i) as char == ('a' as int + (i - 26)) as char
    ensures 52 <= i < 62 ==> Letter(i) as char == ('0' as int + (i - 52)) as char
    ensures Letter(62) as char == '+' && Letter(63) as char == '/' && PAD as char == '='
  {
  }

  predicate IsLetter(c: byte) {
    0x41 <= c <= 0x5A || 0x61 <= c <= 0x7A || 0x30 <= c <= 0x39 || c == 0x2B || c == 0x2F
  }

  function IndexOf(c: byte): sextet
    requires IsLetter(c)
  {
    if 0x41 <= c <= 0x5A then c - 0x41
    else if 0x61 <= c <= 0x7A then c - 0x61 + 26
    else if 0x30 <= c <= 0x39 then c - 0x30 + 52
    else if c == 0x2B then 62 else 63
  }

  // The standard, as one 24-bit number per group

  /** The four letters of a 24-bit group. */
  function Letters(v: nat): (s: seq<byte>)
    requires v < 0x100_0000
    ensures |s| == 4
  {
    [Letter(v / 0x4_0000), Letter(v / 0x1000 % 64), Letter(v / 64 % 64), Letter(v % 64)]
  }

  function Group(s: seq<byte>): (v: nat)
    requires |s| == 3
    ensures v < 0x100_0000
  {
    0x1_0000 * (s[0] as int) + 0x100 * (s[1] as int) + s[2] as int
  }

  /** The base64 text of data. */
  function Text(data: seq<byte>): seq<byte> {
    if data == [] then []
    else if |data| == 1 then Letters(Group(data + [0, 0]))[..2] + [PAD, PAD]
    else if |data| == 2 then Letters(Group(data + [0]))[..3] + [PAD]
    else Letters(Group(data[..3])) + Text(data[3..])
  }

  /** The number behind four letters, and back to bytes. */
  function Value(s: seq<byte>): (v: nat)
    requires |s| == 4 && forall i :: 0 <= i < 4 ==> IsLetter(s[i])
    ensures v < 0x100_0000
  {
    0x4_0000 * (IndexOf(s[0]) as int) + 0x1000 * (IndexOf(s[1]) as int) + 64 * (IndexOf(s[2]) as int)
    + IndexOf(s[3]) as int
  }

  function ThreeBytes(v: nat): (s: seq<byte>)
    requires v < 0x100_0000
    ensures |s| == 3
  {
    [v / 0x1_0000, v / 0x100 % 256, v % 256]
  }

  /** A decoder for section 4 of RFC 4648 that accepts only canonical text. */
  function Decode(s: seq<byte>): Option<seq<byte>> {
    if s == [] then Some([])
    else if |s| < 4 || !IsLetter(s[0]) || !IsLetter(s[1]) then None
    else if |s| == 4 && s[2] == PAD && s[3] == PAD then
      var b := ThreeBytes(Value([s[0], s[1], Letter(0), Letter(0)]));
      if b[1] == 0 then Some(b[..1]) else None
    else if |s| == 4 && IsLetter(s[2]) && s[3] == PAD then
      var b := ThreeBytes(Value([s[0], s[1], s[2], Letter(0)]));
      if b[2] == 0 then Some(b[..2]) else None
    else if IsLetter(s[2]) && IsLetter(s[3]) then
      var rest := Decode(s[4..]);
      if rest.None? then None else Some(ThreeBytes(Value(s[..4])) + rest.value)
    else None
  }

  lemma LetterRoundTrip(i: sextet)
    ensures IsLetter(Letter(i)) && IndexOf(Letter(i)) == i
  {
  }

  lemma ValueOfLetters(v: nat)
    requires v < 0x100_0000
    ensures forall i :: 0 <= i < 4 ==> IsLetter(Letters(v)[i])
    ensures Value(Letters(v)) == v
  {
    LetterRoundTrip(v / 0x4_0000);
    LetterRoundTrip(v / 0x1000 % 64);
    LetterRoundTrip(v / 64 % 64);
    LetterRoundTrip(v % 64);
    SextetsMakeValue(v);
  }

  lemma SextetsMakeValue(v: nat)
    requires v < 0x100_0000
    ensures v == 0x4_0000 * (v / 0x4_0000) + 0x1000 * (v / 0x1000 % 64) + 64 * (v / 64 % 64) + v % 64
  {
    var a, b := v / 64, v / 0x1000;
    assert b == a / 64 && v / 0x4_0000 == b / 64;
    assert v == 64 * a + v % 64 && a == 64 * b + a % 64 && b == 64 * (b / 64) + b % 64;
  }

  lemma BytesOfGroup(s: seq<byte>)
    requires |s| == 3
    ensures ThreeBytes(Group(s)) == s
  {
    var v := Group(s);
    assert v / 0x100 == 0x100 * (s[0] as int) + s[1] as int;
    assert v / 0x1_0000 == s[0];
  }

  /** The last letter of a one byte tail carries only its top two bits, and of a two byte tail its top four. */
  lemma PaddedLetters(v: nat)
    requires v < 0x100_0000
    ensures v % 0x1_0000 == 0 ==> Letters(v)[2] == Letter(0) && Letters(v)[3] == Letter(0)
    ensures v % 0x100 == 0 ==> Letters(v)[3] == Letter(0)
  {
    hide Letter;
    if v % 0x1_0000 == 0 {
      TwoZeroBytes(v / 0x1_0000);
    }
    if v % 0x100 == 0 {
      OneZeroByte(v / 0x100);
    }
  }

  lemma OneZeroByte(q: nat)
    ensures 0x100 * q % 64 == 0
  {
    assert 0x100 * q == 64 * (4 * q);
  }

  lemma TwoZeroBytes(q: nat)
    ensures 0x1_0000 * q / 64 % 64 == 0 && 0x1_0000 * q % 64 == 0
  {
    assert 0x1_0000 * q == 64 * (64 * (16 * q));
  }

  /** Decoding recovers every input, so the encoding is injective. */
  lemma {:induction false} DecodeUndoesText(data: seq<byte>)
    ensures Decode(Text(data)) == Some(data)
    decreases |data|
  {
    if data == [] {
    } else if |data| <= 2 {
      var full := data + Zeros(3 - |data|);
      var v := Group(full);
      BytesOfGroup(full);
      ValueOfLetters(v);
      PaddedLetters(v);
      var l := Letters(v);
      if |data| == 1 {
        assert full == data + [0, 0];
        assert [l[0], l[1], Letter(0), Letter(0)] == l;
        assert full[..1] == data;
      } else {
        assert full == data + [0];
        assert [l[0], l[1], l[2], Letter(0)] == l;
        assert full[..2] == data;
      }
    } else {
      WholeGroupDecodes(data[..3], Text(data[3..]));
      DecodeUndoesText(data[3..]);
      assert data[..3] + data[3..] == data;
    }
  }

  lemma WholeGroupDecodes(g: seq<byte>, rest: seq<byte>)
    requires |g| == 3
    ensures Decode(Letters(Group(g)) + rest) == if Decode(rest).None? then None else Some(g + Decode(rest).value)
  {
    var l := Letters(Group(g));
    ValueOfLetters(Group(g));
    BytesOfGroup(g);
    assert (l + rest)[..4] == l && (l + rest)[4..] == rest;
  }

  lemma IndexRoundTrip(c: byte)
    requires IsLetter(c)
    ensures Letter(IndexOf(c)) == c
  {
  }

  lemma SextetDigits(i0: sextet, i1: sextet, i2: sextet, i3: sextet)
    ensures var v := 0x4_0000 * (i0 as int) + 0x1000 * (i1 as int) + 64 * (i2 as int) + i3;
            v / 0x4_0000 == i0 && v / 0x1000 % 64 == i1 && v / 64 % 64 == i2 && v % 64 == i3
  {
    var v := 0x4_0000 * (i0 as int) + 0x1000 * (i1 as int) + 64 * (i2 as int) + i3;
    assert v / 64 == 0x1000 * (i0 as int) + 64 * (i1 as int) + i2;
    assert v / 0x1000 == 64 * (i0 as int) + i1;
  }

  lemma LettersOfValue(s: seq<byte>)
    requires |s| == 4 && forall i :: 0 <= i < 4 ==> IsLetter(s[i])
    ensures Letters(Value(s)) == s
  {
    hide Letter, IndexOf, IsLetter;
    assert IsLetter(s[0]) && IsLetter(s[1]) && IsLetter(s[2]) && IsLetter(s[3]);
    IndexRoundTrip(s[0]);
    IndexRoundTrip(s[1]);
    IndexRoundTrip(s[2]);
    IndexRoundTrip(s[3]);
    SextetDigits(IndexOf(s[0]), IndexOf(s[1]), IndexOf(s[2]), IndexOf(s[3]));
  }

  lemma GroupOfBytes(v: nat)
    requires v < 0x100_0000
    ensures Group(ThreeBytes(v)) == v
  {
    var a := v / 0x100;
    assert v / 0x1_0000 == a / 256;
    assert v == 0x100 * a + v % 256 && a == 0x100 * (a / 256) + a % 256;
  }

  lemma LowByteZero(q: nat)
    ensures 0x1000 * q % 256 == 0
  {
    assert 0x1000 * q == 256 * (16 * q);
  }

  /** One byte in four characters. */
  lemma OneByteText(s: seq<byte>)
    requires |s| == 4 && IsLetter(s[0]) && IsLetter(s[1]) && s[2] == PAD && s[3] == PAD
    ensures Decode(s).Some? ==> Text(Decode(s).value) == s
  {
    hide Letter, IndexOf, IsLetter, Letters, Group;
    LetterRoundTrip(0);
    var t := [s[0], s[1], Letter(0), Letter(0)];
    var v := Value(t);
    LettersOfValue(t);
    GroupOfBytes(v);
    assert v == 0x1000 * (64 * (IndexOf(s[0]) as int) + IndexOf(s[1]) as int);
    LowByteZero(64 * (IndexOf(s[0]) as int) + IndexOf(s[1]) as int);
    var b := ThreeBytes(v);
    if Decode(s).Some? {
      assert Decode(s).value + [0, 0] == b;
    }
  }

  /** Two bytes in four characters. */
  lemma TwoByteText(s: seq<byte>)
    requires |s| == 4 && IsLetter(s[0]) && IsLetter(s[1]) && IsLetter(s[2]) && s[3] == PAD
    ensures Decode(s).Some? ==> Text(Decode(s).value) == s
  {
    hide Letter, IndexOf, Letters, Group;
    LetterRoundTrip(0);
    var t := [s[0], s[1], s[2], Letter(0)];
    var v := Value(t);
    LettersOfValue(t);
    GroupOfBytes(v);
    var b := ThreeBytes(v);
    if Decode(s).Some? {
      assert Decode(s).value + [0] == b;
    }
  }

  /** Whatever the decoder accepts is exactly the text of what it returns. */
  lemma {:induction false} TextUndoesDecode(s: seq<byte>)
    ensures Decode(s).Some? ==> Text(Decode(s).value) == s
    decreases |s|
  {
    hide Letter, IndexOf, Letters, Group, ThreeBytes, Value;
    if Decode(s).Some? && s != [] {
      if |s| == 4 && s[3] == PAD {
        if s[2] == PAD {
          OneByteText(s);
        } else {
          TwoByteText(s);
        }
      } else {
        var d := Decode(s).value;
        var v := Value(s[..4]);
        LettersOfValue(s[..4]);
        GroupOfBytes(v);
        TextUndoesDecode(s[4..]);
        assert d[..3] == ThreeBytes(v) && d[3..] == Decode(s[4..]).value;
        assert s[..4] + s[4..] == s;
      }
    }
  }

  lemma TextInjective(a: seq<byte>, b: seq<byte>)
    requires Text(a) == Text(b)
    ensures a == b
  {
    DecodeUndoesText(a);
    DecodeUndoesText(b);
  }

  lemma {:induction false} TextLength(data: seq<byte>)
    ensures |Text(data)| == 4 * ((|data| + 2) / 3)
    decreases |data|
  {
    if |data| >= 3 {
      TextLength(data[3..]);
      assert (|data| + 2) / 3 == (|data| - 3 + 2) / 3 + 1;
    }
  }

  // The size macro

  /** 4 * n in size_t. */
  function TimesFour(n: size_t): (r: size_t) {
    SizeAdd(SizeAdd(n, n), SizeAdd(n, n))
  }

  /** BASE64_LENGTH. */
  function MacroLength(n: size_t): nat {
    (TimesFour(n) / 3 + 3) / 4 * 4 + 1
  }

  /** The macro is the length of the text and its terminator if and only if 4 * n does not overflow; otherwise it is
      too short, so that a buffer that is too small passes the check. */
  lemma MacroLengthExact(n: size_t)
    ensures MacroLength(n) == 4 * ((n + 2) / 3) + 1 <==> 4 * n < SIZE_MOD
    ensures MacroLength(n) < 4 * ((n + 2) / 3) + 1 <==> 4 * n >= SIZE_MOD
  {
    if 4 * n < SIZE_MOD {
      assert TimesFour(n) == 4 * n;
      RoundUp(n);
    } else {
      assert TimesFour(n) <= 4 * n - SIZE_MOD;
      assert MacroLength(n) <= (4 * n - SIZE_MOD) / 3 + 4;
      assert 4 * ((n + 2) / 3) + 1 >= 4 * n / 3 + 1;
    }
  }

  lemma RoundUp(n: nat)
    ensures (4 * n / 3 + 3) / 4 * 4 == 4 * ((n + 2) / 3)
  {
    var q := n / 3;
    if n % 3 == 0 {
      assert n == 3 * q && 4 * n / 3 == 4 * q;
    } else if n % 3 == 1 {
      assert n == 3 * q + 1 && 4 * n / 3 == 4 * q + 1;
    } else {
      assert n == 3 * q + 2 && 4 * n / 3 == 4 * q + 2;
    }
  }

  // The encoder

  /** The shifts and masks of the encoding loop give the letters of the group. */
  lemma ShiftsGiveLetters(b1: byte, b2: byte, b3: byte)
    ensures var v := Group([b1, b2, b3]);
            && v / 0x4_0000 == b1 / 4
            && v / 0x1000 % 64 == b1 % 4 * 16 + b2 / 16
            && v / 64 % 64 == b2 % 16 * 4 + b3 / 64
            && v % 64 == b3 % 64
  {
    var v := Group([b1, b2, b3]);
    assert b1 == 4 * (b1 / 4) + b1 % 4 && b2 == 16 * (b2 / 16) + b2 % 16 && b3 == 64 * (b3 / 64) + b3 % 64;
    assert v / 64 == 0x400 * (b1 as int) + 4 * (b2 as int) + b3 / 64;
    assert v / 0x1000 == 16 * (b1 as int) + b2 / 16;
  }

  /** base64_core_encode.  When the size check passes, the memory behind `encoded` must hold the text; below a quarter
      of the address space, where the size macro is exact, it does. */
  method Encode(data: seq<byte>, encoded: array<byte>, encLength: size_t) returns (ok: bool)
    requires |data| < SIZE_MOD && encLength <= encoded.Length
    requires 4 * |data| >= SIZE_MOD && encLength >= MacroLength(|data|) ==>
               4 * ((|data| + 2) / 3) + 1 <= encoded.Length
    modifies encoded
    ensures ok == (encLength >= MacroLength(|data|))
    ensures 4 * |data| < SIZE_MOD ==> ok == (encLength >= 4 * ((|data| + 2) / 3) + 1)
    ensures ok ==> |Text(data)| == 4 * ((|data| + 2) / 3)
    ensures ok ==> encoded[..] == Splice(old(encoded[..]), 0, Text(data) + [0])
    ensures !ok ==> encoded[..] == old(encoded[..])
  {
    hide Splice, Letters, Letter, Group, Text;
    ghost var was := encoded[..];
    var length := |data|;
    MacroLengthExact(length);
    TextLength(data);
    if encLength < MacroLength(length) {
      return false;
    }
    var inPos, outPos := 0, 0;
    TextOfNothing(data);
    SpliceNothing(was, 0);
    while length - inPos >= 3
      invariant 0 <= inPos <= length && inPos % 3 == 0
      invariant outPos == |Text(data[..inPos])| == 4 * (inPos / 3)
      invariant encoded[..] == Splice(was, 0, Text(data[..inPos]))
    {
      var four := EncodeGroup(data[inPos], data[inPos + 1], data[inPos + 2]);
      TextGrows(data, inPos);
      SpliceAppend(was, 0, Text(data[..inPos]), four);
      CopyInto(encoded, outPos, four);
      inPos, outPos := inPos + 3, outPos + 4;
    }
    TextSplits(data, inPos);
    var tail := EncodeTail(data[inPos..]);
    SpliceAppend(was, 0, Text(data[..inPos]), tail + [0]);
    assert Text(data[..inPos]) + (tail + [0]) == Text(data) + [0];
    CopyInto(encoded, outPos, tail + [0]);
    ok := true;
  }

  method EncodeGroup(byte1: byte, byte2: byte, byte3: byte) returns (s: seq<byte>)
    ensures s == Letters(Group([byte1, byte2, byte3]))
  {
    hide Letter, Group;
    ShiftsGiveLetters(byte1, byte2, byte3);
    s := [Letter(byte1 / 4), Letter(byte1 % 4 * 16 + byte2 / 16),
          Letter(byte2 % 16 * 4 + byte3 / 64), Letter(byte3 % 64)];
  }

  /** What is not in a group of three. */
  method EncodeTail(rest: seq<byte>) returns (s: seq<byte>)
    requires |rest| < 3
    ensures s == Text(rest)
  {
    hide Letter, Group;
    s := [];
    if |rest| != 0 {
      var val := rest[0];
      s := s + [Letter(val / 4)];
      val := val % 4 * 16;
      if |rest| != 1 {
        ShiftsGiveLetters(rest[0], rest[1], 0);
        assert rest + [0] == [rest[0], rest[1], 0];
        s := s + [Letter(val + rest[1] / 16)];
        s := s + [Letter(rest[1] % 16 * 4)];
      } else {
        ShiftsGiveLetters(rest[0], 0, 0);
        assert rest + [0, 0] == [rest[0], 0, 0];
        s := s + [Letter(val)];
        s := s + [PAD];
      }
      s := s + [PAD];
    }
  }

  /** Whole groups can be taken off the front in any number. */
  lemma {:induction false} TextSplits(data: seq<byte>, n: nat)
    requires n <= |data| && n % 3 == 0
    ensures Text(data) == Text(data[..n]) + Text(data[n..])
    decreases |data|
  {
    if n == 0 {
      assert data[..0] == [] && data[0..] == data;
    } else {
      TextSplits(data[3..], n - 3);
      assert data[..n][..3] == data[..3] && data[..n][3..] == data[3..][..n - 3] && data[3..][n - 3..] == data[n..];
    }
  }

  lemma TextOfNothing(data: seq<byte>)
    ensures Text(data[..0]) == []
  {
    assert data[..0] == [];
  }

  lemma TextGrows(data: seq<byte>, n: nat)
    requires n + 3 <= |data| && n % 3 == 0
    ensures Text(data[..n + 3]) == Text(data[..n]) + Letters(Group([data[n], data[n + 1], data[n + 2]]))
  {
    var d := data[..n + 3];
    TextSplits(d, n);
    var g := [data[n], data[n + 1], data[n + 2]];
    assert d[..n] == data[..n] && d[n..] == g;
    assert g[..3] == g && g[3..] == [];
  }
}
