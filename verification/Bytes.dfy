/** Bytes, the machine's size_t modulus, little-endian fields, and the window and splice
    algebra that every partial read of a log or buffer is specified with. */
module Bytes {

  type byte = x: int | 0 <= x < 256

  type uint32 = x: int | 0 <= x < 0x1_0000_0000

  /** size_t is either 32 or 64 bits wide; every result holds for both. */
  type SizeModulus = m: int | m == 0x1_0000_0000 || m == 0x1_0000_0000_0000_0000 witness 0x1_0000_0000

  const SIZE_MOD: SizeModulus

  /** A value of the C type size_t. */
  type size_t = x: int | 0 <= x < SIZE_MOD witness 0

  /** C's unsigned subtraction, which wraps. */
  function SizeSub(a: size_t, b: size_t): (r: size_t)
    ensures b <= a ==> r == a - b
    ensures b > a ==> r == a - b + SIZE_MOD
  {
    if b <= a then a - b else a - b + SIZE_MOD
  }

  /** C's unsigned addition, which wraps. */
  function SizeAdd(a: size_t, b: size_t): (r: size_t)
    ensures a + b < SIZE_MOD ==> r == a + b
    ensures a + b >= SIZE_MOD ==> r == a + b - SIZE_MOD
  {
    if a + b < SIZE_MOD then a + b else a + b - SIZE_MOD
  }

  /** The value a size_t holds after the true value n is computed in it. */
  function Truncate(n: nat): (r: size_t)
    ensures n < SIZE_MOD ==> r == n
  {
    n % SIZE_MOD
  }

  lemma SizeAddTruncates(a: size_t, b: size_t)
    ensures SizeAdd(a, b) == Truncate(a + b)
  {
  }

  lemma MulMonotone(a: nat, b: nat, c: nat, d: nat)
    requires a <= b && c <= d
    ensures a * c <= b * d
  {
    assert a * c <= b * c;
    assert b * c <= b * d;
  }

  function Min(a: int, b: int): int { if a < b then a else b }

  function Zeros(n: nat): (z: seq<byte>)
    ensures |z| == n
    ensures forall i :: 0 <= i < n ==> z[i] == 0
  {
    seq(n, _ => 0)
  }

  /** Byte strings one after another. */
  function Concat(pieces: seq<seq<byte>>): seq<byte> {
    if pieces == [] then [] else Concat(pieces[..|pieces| - 1]) + pieces[|pieces| - 1]
  }

  lemma ConcatSnoc(xs: seq<seq<byte>>, x: seq<byte>)
    ensures Concat(xs + [x]) == Concat(xs) + x
  {
    assert (xs + [x])[..|xs|] == xs;
  }

  // Little-endian memory images; wider values are truncated, as the C assignments do.

  function LE16(v: nat): (s: seq<byte>)
    ensures |s| == 2
  {
    [v % 256, v / 256 % 256]
  }

  function LE32(v: nat): (s: seq<byte>)
    ensures |s| == 4
  {
    [v % 256, v / 0x100 % 256, v / 0x1_0000 % 256, v / 0x100_0000 % 256]
  }

  function LE64(v: nat): (s: seq<byte>)
    ensures |s| == 8
  {
    LE32(v) + LE32(v / 0x1_0000_0000)
  }

  function FromLE16(s: seq<byte>): (v: nat)
    requires |s| == 2
    ensures v < 0x1_0000
  {
    (s[0] as int) + 0x100 * (s[1] as int)
  }

  function FromLE32(s: seq<byte>): (v: nat)
    requires |s| == 4
    ensures v < 0x1_0000_0000
  {
    (s[0] as int) + 0x100 * (s[1] as int) + 0x1_0000 * (s[2] as int) + 0x100_0000 * (s[3] as int)
  }

  function FromLE64(s: seq<byte>): (v: nat)
    requires |s| == 8
  {
    (s[0] as int) + 0x100 * (s[1] as int) + 0x1_0000 * (s[2] as int) + 0x100_0000 * (s[3] as int)
    + 0x1_0000_0000 * (s[4] as int) + 0x100_0000_0000 * (s[5] as int) + 0x1_0000_0000_0000 * (s[6] as int)
    + 0x100_0000_0000_0000 * (s[7] as int)
  }

  lemma LE16RoundTrip(v: nat)
    ensures FromLE16(LE16(v)) == v % 0x1_0000
  {
    assert v % 0x1_0000 == v % 256 + 256 * (v / 256 % 256);
  }

  lemma DigitsOf(v: nat)
    ensures v == v % 256 + 256 * (v / 0x100 % 256) + 0x1_0000 * (v / 0x1_0000 % 256)
                 + 0x100_0000 * (v / 0x100_0000 % 256) + 0x1_0000_0000 * (v / 0x1_0000_0000)
  {
    var a, b, c, d := v / 0x100, v / 0x1_0000, v / 0x100_0000, v / 0x1_0000_0000;
    assert b == a / 256 && c == b / 256 && d == c / 256;
    assert v == 256 * a + v % 256 && a == 256 * b + a % 256 && b == 256 * c + b % 256 && c == 256 * d + c % 256;
  }

  lemma LE32RoundTrip(v: nat)
    ensures FromLE32(LE32(v)) == v % 0x1_0000_0000
  {
    DigitsOf(v);
    assert v == 0x1_0000_0000 * (v / 0x1_0000_0000) + FromLE32(LE32(v));
  }

  lemma LE64RoundTrip(v: nat)
    ensures FromLE64(LE64(v)) == v % 0x1_0000_0000_0000_0000
  {
    hide LE32;
    var high := v / 0x1_0000_0000;
    assert FromLE64(LE64(v)) == FromLE32(LE32(v)) + 0x1_0000_0000 * FromLE32(LE32(high)) by {
      assert LE64(v)[..4] == LE32(v) && LE64(v)[4..] == LE32(high);
    }
    LE32RoundTrip(v);
    LE32RoundTrip(high);
    TwoWords(v);
  }

  lemma TwoWords(v: nat)
    ensures v % 0x1_0000_0000_0000_0000
            == v % 0x1_0000_0000 + 0x1_0000_0000 * (v / 0x1_0000_0000 % 0x1_0000_0000)
  {
    var high := v / 0x1_0000_0000;
    var top := high / 0x1_0000_0000;
    var low := v % 0x1_0000_0000 + 0x1_0000_0000 * (high % 0x1_0000_0000);
    assert v == 0x1_0000_0000_0000_0000 * top + low;
    assert 0 <= low < 0x1_0000_0000_0000_0000;
  }

  /** A 32-bit field cannot tell a true length from the one a size_t holds. */
  lemma LE32Truncates(n: nat)
    ensures LE32(Truncate(n)) == LE32(n)
  {
    LE32Periodic(n, n / SIZE_MOD * (SIZE_MOD / 0x1_0000_0000));
    TruncateIsPeriodic(n);
  }

  lemma TruncateIsPeriodic(n: nat)
    ensures n == Truncate(n) + 0x1_0000_0000 * (n / SIZE_MOD * (SIZE_MOD / 0x1_0000_0000))
  {
    if SIZE_MOD == 0x1_0000_0000 {
      assert SIZE_MOD / 0x1_0000_0000 == 1;
    } else {
      assert SIZE_MOD / 0x1_0000_0000 == 0x1_0000_0000;
    }
  }

  lemma LE32Periodic(n: nat, k: nat)
    requires 0x1_0000_0000 * k <= n
    ensures LE32(n - 0x1_0000_0000 * k) == LE32(n)
  {
    hide LE32, FromLE32;
    LE32RoundTrip(n);
    LE32RoundTrip(n - 0x1_0000_0000 * k);
    FromLE32Injective(LE32(n - 0x1_0000_0000 * k), LE32(n));
  }

  lemma FromLE32Injective(a: seq<byte>, b: seq<byte>)
    requires |a| == 4 && |b| == 4 && FromLE32(a) == FromLE32(b)
    ensures a == b
  {
    var x1, y1 := a[1] + 256 * (a[2] + 256 * a[3] as int), b[1] + 256 * (b[2] + 256 * b[3] as int);
    LowByteUnique(a[0], x1, b[0], y1);
    LowByteUnique(a[1], a[2] + 256 * a[3] as int, b[1], b[2] + 256 * b[3] as int);
    LowByteUnique(a[2], a[3], b[2], b[3]);
  }

  lemma FromLE16Injective(a: seq<byte>, b: seq<byte>)
    requires |a| == 2 && |b| == 2 && FromLE16(a) == FromLE16(b)
    ensures a == b
  {
    LowByteUnique(a[0], a[1], b[0], b[1]);
  }

  lemma FromLE64Injective(a: seq<byte>, b: seq<byte>)
    requires |a| == 8 && |b| == 8 && FromLE64(a) == FromLE64(b)
    ensures a == b
  {
    LowWordUnique(FromLE32(a[..4]), FromLE32(a[4..]), FromLE32(b[..4]), FromLE32(b[4..]));
    FromLE32Injective(a[..4], b[..4]);
    FromLE32Injective(a[4..], b[4..]);
    assert a == a[..4] + a[4..] && b == b[..4] + b[4..];
  }

  lemma LowWordUnique(a: uint32, x: int, b: uint32, y: int)
    requires a + 0x1_0000_0000 * x == b + 0x1_0000_0000 * y
    ensures a == b && x == y
  {
  }

  lemma LowByteUnique(a: byte, x: int, b: byte, y: int)
    requires a + 256 * x == b + 256 * y
    ensures a == b && x == y
  {
  }

  /** The bytes that a read of at most `length` bytes at `offset` must produce. */
  function Window<T>(s: seq<T>, offset: nat, length: nat): (w: seq<T>)
    ensures |w| == if offset >= |s| then 0 else Min(length, |s| - offset)
  {
    if offset >= |s| then [] else s[offset..offset + Min(length, |s| - offset)]
  }

  /** What is left of an offset once n bytes have been passed over. */
  function Past(offset: nat, n: nat): (r: nat) {
    if offset >= n then offset - n else 0
  }

  /** A window onto a concatenation is a window onto the left part followed by a window onto
      the right part of whatever offset and length remain. */
  lemma WindowAppend<T>(a: seq<T>, b: seq<T>, offset: nat, length: nat)
    ensures Window(a + b, offset, length) ==
            Window(a, offset, length) + Window(b, Past(offset, |a|), length - |Window(a, offset, length)|)
  {
    var w := Window(a, offset, length);
    var l := Window(a + b, offset, length);
    var r := w + Window(b, Past(offset, |a|), length - |w|);
    assert |l| == |r|;
    forall i | 0 <= i < |l| ensures l[i] == r[i] {
    }
  }

  lemma WindowEmpty<T>(s: seq<T>, offset: nat)
    ensures Window(s, offset, 0) == []
  {
  }

  /** Reading a log in chunks of the given sizes, each read starting where the last one stopped. */
  function ReadInChunks<T>(s: seq<T>, offset: nat, sizes: seq<nat>): seq<T>
    decreases |sizes|
  {
    if sizes == [] then []
    else
      var w := Window(s, offset, sizes[0]);
      w + ReadInChunks(s, offset + |w|, sizes[1..])
  }

  function Sum(sizes: seq<nat>): nat {
    if sizes == [] then 0 else sizes[0] + Sum(sizes[1..])
  }

  /** Any sequence of chunk sizes reassembles the log: no byte is lost, repeated or reordered. */
  lemma {:induction false} ChunksReassemble<T>(s: seq<T>, offset: nat, sizes: seq<nat>)
    ensures ReadInChunks(s, offset, sizes) == Window(s, offset, Sum(sizes))
    decreases |sizes|
  {
    hide Window;
    if sizes == [] {
      WindowEmpty(s, offset);
    } else {
      ChunksReassemble(s, offset + |Window(s, offset, sizes[0])|, sizes[1..]);
      WindowSplit(s, offset, sizes[0], Sum(sizes[1..]));
    }
  }

  lemma WindowSplit<T>(s: seq<T>, offset: nat, m: nat, n: nat)
    ensures Window(s, offset, m + n) == Window(s, offset, m) + Window(s, offset + |Window(s, offset, m)|, n)
  {
    var w := Window(s, offset, m);
    var l, r := Window(s, offset, m + n), w + Window(s, offset + |w|, n);
    assert |l| == |r|;
    forall i | 0 <= i < |l| ensures l[i] == r[i] {
    }
  }

  /** b with the bytes x written at pos. */
  function Splice<T>(b: seq<T>, pos: nat, x: seq<T>): (r: seq<T>)
    requires pos + |x| <= |b|
    ensures |r| == |b|
  {
    b[..pos] + x + b[pos + |x|..]
  }

  lemma SpliceFront<T>(b: seq<T>, x: seq<T>)
    requires |x| <= |b|
    ensures Splice(b, 0, x)[..|x|] == x && Splice(b, 0, x)[|x|..] == b[|x|..]
  {
  }

  lemma SpliceUpdate(b: seq<byte>, pos: nat, x: seq<byte>, k: nat, v: byte)
    requires pos + |x| <= |b| && k < |x|
    ensures Splice(b, pos, x)[pos + k := v] == Splice(b, pos, x[k := v])
  {
  }

  lemma SpliceAppend<T>(b: seq<T>, pos: nat, x: seq<T>, y: seq<T>)
    requires pos + |x| + |y| <= |b|
    ensures Splice(Splice(b, pos, x), pos + |x|, y) == Splice(b, pos, x + y)
  {
  }

  /** Writing the second half first gives the same buffer. */
  lemma SpliceDeferred<T>(b: seq<T>, pos: nat, x: seq<T>, y: seq<T>)
    requires pos + |x| + |y| <= |b|
    ensures Splice(Splice(b, pos + |x|, y), pos, x) == Splice(b, pos, x + y)
  {
    var l := Splice(Splice(b, pos + |x|, y), pos, x);
    var r := Splice(b, pos, x + y);
    forall i | 0 <= i < |b| ensures l[i] == r[i] {
    }
  }

  lemma SpliceNothing<T>(b: seq<T>, pos: nat)
    requires pos <= |b|
    ensures Splice(b, pos, []) == b
  {
  }

  /** memcpy into a buffer at a position. */
  method CopyInto(buffer: array<byte>, pos: nat, x: seq<byte>)
    requires pos + |x| <= buffer.Length
    modifies buffer
    ensures buffer[..] == Splice(old(buffer[..]), pos, x)
  {
    forall i | 0 <= i < |x| {
      buffer[pos + i] := x[i];
    }
    assert buffer[..] == Splice(old(buffer[..]), pos, x);
  }

  /** Only the part of a buffer a caller lent was written. */
  ghost predicate OutsideUnchanged<T>(was: seq<T>, now: seq<T>, pos: nat, length: nat) {
    && |was| == |now|
    && pos + length <= |was|
    && now[..pos] == was[..pos]
    && now[pos + length..] == was[pos + length..]
  }

  /** Writing x and then touching only what follows it stays inside the part that was lent. */
  lemma OutsideAfterSplice<T>(was: seq<T>, pos: nat, x: seq<T>, now: seq<T>, length: nat)
    requires |x| <= length && pos + length <= |was|
    requires OutsideUnchanged(Splice(was, pos, x), now, pos + |x|, length - |x|)
    ensures OutsideUnchanged(was, now, pos, length)
  {
    var b := Splice(was, pos, x);
    assert now[..pos] == now[..pos + |x|][..pos] == b[..pos + |x|][..pos] == was[..pos];
    assert b[pos + length..] == was[pos + length..];
  }

  lemma SpliceStaysInside<T>(b: seq<T>, pos: nat, x: seq<T>, length: nat)
    requires |x| <= length && pos + length <= |b|
    ensures OutsideUnchanged(b, Splice(b, pos, x), pos, length)
  {
  }

  /** What stays inside a part stays inside a larger part. */
  lemma InsideLarger<T>(was: seq<T>, now: seq<T>, pos: nat, length: nat, pos': nat, length': nat)
    requires OutsideUnchanged(was, now, pos, length)
    requires pos' <= pos && pos + length <= pos' + length' <= |was|
    ensures OutsideUnchanged(was, now, pos', length')
  {
    assert now[..pos'] == now[..pos][..pos'] == was[..pos][..pos'] == was[..pos'];
    assert now[pos' + length'..] == now[pos + length..][pos' + length' - pos - length..];
    assert was[pos' + length'..] == was[pos + length..][pos' + length' - pos - length..];
  }

  lemma SubSlice<T>(s: seq<T>, a: nat, b: nat, i: nat, j: nat)
    requires a <= b <= |s| && i <= j <= b - a
    ensures s[a..b][i..j] == s[a + i..a + j]
  {
    var l, r := s[a..b][i..j], s[a + i..a + j];
    assert |l| == |r|;
    forall k | 0 <= k < |l| ensures l[k] == r[k] {
      assert l[k] == s[a..b][i + k] == s[a + i + k];
    }
  }
}
