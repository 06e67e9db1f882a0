/** DER encodings as byte strings: minimal INTEGER contents (ITU-T X.690 section 8.3.2), definite lengths in the
    fewest octets (section 10.1), and the facts that make them unique. */
module Der {
  import opened Bytes

  // Big-endian numbers

  function Pow256(n: nat): (p: nat)
    ensures p >= 1
  {
    if n == 0 then 1 else 256 * Pow256(n - 1)
  }

  function BE(s: seq<byte>): nat {
    if s == [] then 0 else BE(s[..|s| - 1]) * 256 + s[|s| - 1]
  }

  lemma {:induction false} BEBound(s: seq<byte>)
    ensures BE(s) < Pow256(|s|)
    decreases |s|
  {
    if s != [] {
      BEBound(s[..|s| - 1]);
    }
  }

  lemma {:induction false} BEConsTop(b: byte, s: seq<byte>)
    ensures BE([b] + s) == b * Pow256(|s|) + BE(s)
    decreases |s|
  {
    if s == [] {
      assert [b] + s == [b];
      assert [b][..0] == [];
    } else {
      var init := s[..|s| - 1];
      assert ([b] + s)[..|s|] == [b] + init;
      BEConsTop(b, init);
      assert b * Pow256(|s|) == 256 * (b * Pow256(|s| - 1));
    }
  }

  lemma BELeadingZero(s: seq<byte>)
    ensures BE([0] + s) == BE(s)
  {
    BEConsTop(0, s);
  }

  lemma {:induction false} BEInjective(a: seq<byte>, b: seq<byte>)
    requires |a| == |b| && BE(a) == BE(b)
    ensures a == b
    decreases |a|
  {
    if a != [] {
      var n := |a| - 1;
      LowByteUnique(a[n], BE(a[..n]), b[n], BE(b[..n]));
      BEInjective(a[..n], b[..n]);
      assert a == a[..n] + [a[n]] && b == b[..n] + [b[n]];
    }
  }

  lemma {:induction false} Pow256Monotone(m: nat, n: nat)
    requires m <= n
    ensures Pow256(m) <= Pow256(n)
    decreases n
  {
    if m < n {
      Pow256Monotone(m, n - 1);
    }
  }

  /** v in exactly n big-endian bytes. */
  function ToBE(v: nat, n: nat): (s: seq<byte>)
    ensures |s| == n
  {
    if n == 0 then [] else ToBE(v / 256, n - 1) + [v % 256]
  }

  lemma {:induction false} ToBEValue(v: nat, n: nat)
    requires v < Pow256(n)
    ensures BE(ToBE(v, n)) == v
    decreases n
  {
    if n > 0 {
      ToBEValue(v / 256, n - 1);
      var s := ToBE(v, n);
      assert s[..n - 1] == ToBE(v / 256, n - 1);
    }
  }

  // INTEGER contents

  /** Without leading zeros, but never empty. */
  function StripZeros(s: seq<byte>): (t: seq<byte>)
    requires |s| >= 1
    ensures 1 <= |t| <= |s|
  {
    if |s| > 1 && s[0] == 0 then StripZeros(s[1..]) else s
  }

  lemma {:induction false} StripFacts(s: seq<byte>)
    requires |s| >= 1
    ensures var t := StripZeros(s);
            && s == Zeros(|s| - |t|) + t
            && (|t| > 1 ==> t[0] != 0)
    decreases |s|
  {
    if |s| > 1 && s[0] == 0 {
      StripFacts(s[1..]);
    }
  }

  /** Where the leading zeros end is where the stripped bytes begin. */
  lemma {:induction false} StripAt(s: seq<byte>, m: nat)
    requires m < |s| && (forall j :: 0 <= j < m ==> s[j] == 0) && (m == |s| - 1 || s[m] != 0)
    ensures StripZeros(s) == s[m..]
    ensures IntegerContent(s) == (if s[m] >= 0x80 then [0] else []) + s[m..]
    decreases m
  {
    if m > 0 {
      assert s[1..][m - 1..] == s[m..];
      StripAt(s[1..], m - 1);
    }
  }

  /** The contents of a non-negative INTEGER with the value of s. */
  function IntegerContent(s: seq<byte>): (c: seq<byte>)
    requires |s| >= 1
    ensures 1 <= |c| <= |s| + 1
  {
    var t := StripZeros(s);
    if t[0] >= 0x80 then [0] + t else t
  }

  /** The two's complement value of INTEGER contents. */
  function IntegerValue(c: seq<byte>): int
    requires |c| >= 1
  {
    if c[0] < 0x80 then BE(c) else BE(c) - Pow256(|c|)
  }

  /** X.690 section 8.3.2: the first nine bits are not all alike. */
  predicate MinimalContent(c: seq<byte>) {
    && |c| >= 1
    && (|c| > 1 ==> !(c[0] == 0 && c[1] < 0x80) && !(c[0] == 0xff && c[1] >= 0x80))
  }

  lemma {:induction false} StripKeepsValue(s: seq<byte>)
    requires |s| >= 1
    ensures BE(StripZeros(s)) == BE(s)
    decreases |s|
  {
    if |s| > 1 && s[0] == 0 {
      BELeadingZero(s[1..]);
      assert s == [0] + s[1..];
      StripKeepsValue(s[1..]);
    }
  }

  lemma IntegerContentIsMinimal(s: seq<byte>)
    requires |s| >= 1
    ensures MinimalContent(IntegerContent(s))
    ensures IntegerValue(IntegerContent(s)) == BE(s)
  {
    hide BE;
    StripFacts(s);
    StripKeepsValue(s);
    BELeadingZero(StripZeros(s));
  }

  /** Minimal contents of the same non-negative value are the same bytes. */
  lemma MinimalContentUnique(a: seq<byte>, b: seq<byte>)
    requires MinimalContent(a) && MinimalContent(b)
    requires IntegerValue(a) == IntegerValue(b) >= 0
    ensures a == b
  {
    BEBound(a);
    BEBound(b);
    assert a[0] < 0x80 && b[0] < 0x80;
    if |a| < |b| {
      ShorterIsSmaller(a, b);
    } else if |b| < |a| {
      ShorterIsSmaller(b, a);
    } else {
      BEInjective(a, b);
    }
  }

  lemma TopByteBounds(s: seq<byte>)
    requires |s| >= 1
    ensures s[0] * Pow256(|s| - 1) <= BE(s) < (s[0] + 1) * Pow256(|s| - 1)
  {
    hide BE;
    assert s == [s[0]] + s[1..];
    BEConsTop(s[0], s[1..]);
    BEBound(s[1..]);
  }

  lemma ShorterIsSmaller(a: seq<byte>, b: seq<byte>)
    requires MinimalContent(a) && MinimalContent(b) && a[0] < 0x80 && b[0] < 0x80 && |a| < |b|
    ensures BE(a) < BE(b)
  {
    hide BE;
    var p, q := Pow256(|b| - 2), Pow256(|a| - 1);
    Pow256Monotone(|a| - 1, |b| - 2);
    TopByteBounds(a);
    MulMonotone(a[0] + 1, 0x80, q, p);
    if b[0] == 0 {
      assert b == [0] + b[1..];
      BELeadingZero(b[1..]);
      TopByteBounds(b[1..]);
      MulMonotone(0x80, b[1], p, p);
    } else {
      TopByteBounds(b);
      assert Pow256(|b| - 1) == 256 * p;
      MulMonotone(1, b[0], 256 * p, 256 * p);
    }
  }

  // Lengths and values

  /** X.690 section 10.1: the definite form with the fewest octets. */
  function LengthOctets(n: nat): (s: seq<byte>)
    requires n < 0x1_0000_0000
  {
    if n < 0x80 then [n]
    else if n < 0x100 then [0x81, n]
    else if n < 0x1_0000 then [0x82] + ToBE(n, 2)
    else if n < 0x100_0000 then [0x83] + ToBE(n, 3)
    else [0x84] + ToBE(n, 4)
  }

  function Header(tag: byte, n: nat): seq<byte>
    requires n < 0x1_0000_0000
  {
    [tag] + LengthOctets(n)
  }

  function Tlv(tag: byte, content: seq<byte>): seq<byte>
    requires |content| < 0x1_0000_0000
  {
    Header(tag, |content|) + content
  }

  const INTEGER: byte := 0x02
  const BIT_STRING: byte := 0x03
  const OCTET_STRING: byte := 0x04
  const OBJECT_IDENTIFIER: byte := 0x06
  const SEQUENCE: byte := 0x30

  /** The DER form of the non-negative INTEGER with the value of s. */
  function IntegerTlv(s: seq<byte>): (t: seq<byte>)
    requires |s| >= 1 && |IntegerContent(s)| < 0x1_0000_0000
  {
    Tlv(INTEGER, IntegerContent(s))
  }

  /** e is a DER INTEGER of value v. */
  ghost predicate IsInteger(e: seq<byte>, v: nat) {
    exists c :: MinimalContent(c) && |c| < 0x1_0000_0000 && IntegerValue(c) == v && e == Tlv(0x02, c)
  }

  /** IntegerTlv is the one DER INTEGER of its value. */
  lemma IntegerTlvUnique(s: seq<byte>, e: seq<byte>)
    requires |s| >= 1 && |IntegerContent(s)| < 0x1_0000_0000
    ensures IsInteger(e, BE(s)) <==> e == IntegerTlv(s)
  {
    IntegerContentIsMinimal(s);
    if IsInteger(e, BE(s)) {
      var c :| MinimalContent(c) && |c| < 0x1_0000_0000 && IntegerValue(c) == BE(s) && e == Tlv(0x02, c);
      MinimalContentUnique(c, IntegerContent(s));
    }
  }
}
