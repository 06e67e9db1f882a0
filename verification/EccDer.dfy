/** Reading and writing one ASN.1 tag at a cursor (core/asn1/ecc_der_util.c). */
module EccDer {
  import opened Bytes
  import opened Wrappers
  import opened Der

  datatype DerError =
    | InvalidArgument | UnsupportedKeyLength | Malformed | UnknownSequence | UnsupportedCurve | SmallKeyBuffer
    | SmallDerBuffer | UnsupportedAlgorithm | SigTooLong | UnexpectedTag | InvalidEcPoint | CompressedEcPoint
    | InfinityEcPoint | InvalidSignature

  datatype Tag = Tag(headerLen: nat, typeLen: nat)

  /** What the tag at the front of s says: one or two length octets, and all of its contents present. */
  function TagOf(tag: byte, s: seq<byte>): (r: Result<Tag, DerError>)
    ensures r.Ok? ==> 2 <= r.value.headerLen && r.value.headerLen + r.value.typeLen <= |s|
    ensures r.Ok? ==> r.value.typeLen < 256
  {
    if |s| < 3 then Err(Malformed)
    else if s[0] != tag then Err(UnexpectedTag)
    else if s[1] >= 0x80 && s[1] != 0x81 then Err(UnknownSequence)
    else
      var t := if s[1] < 0x80 then Tag(2, s[1]) else Tag(3, s[2]);
      if |s| < t.headerLen + t.typeLen then Err(Malformed) else Ok(t)
  }

  /** ecc_der_get_next_tag: the cursor and the remaining length move past the header. */
  method GetNextTag(tag: byte, mem: seq<byte>, pos: nat, length: nat)
    returns (error: Option<DerError>, pos': nat, length': nat, typeLen: nat)
    requires pos + length <= |mem|
    ensures match TagOf(tag, mem[pos..pos + length])
            case Err(e) => error == Some(e)
            case Ok(t) => error == None && typeLen == t.typeLen
                          && pos' == pos + t.headerLen && length' == length - t.headerLen
  {
    pos', length', typeLen := pos, length, 0;
    if length < 3 {
      return Some(Malformed), pos, length, 0;
    }
    if mem[pos] != tag {
      return Some(UnexpectedTag), pos, length, 0;
    }
    var headerLen := 2;
    if mem[pos + 1] < 0x80 {
      typeLen := mem[pos + 1];
    } else if mem[pos + 1] == 0x81 {
      typeLen := mem[pos + 2];
      headerLen := 3;
    } else {
      return Some(UnknownSequence), pos, length, 0;
    }
    if length < headerLen + typeLen {
      return Some(Malformed), pos, length, typeLen;
    }
    error, pos', length' := None, pos + headerLen, length - headerLen;
  }

  lemma HeaderShape(tag: byte, n: nat)
    requires n < 256
    ensures Header(tag, n) == if n < 0x80 then [tag, n] else [tag, 0x81, n]
  {
  }

  /** s is an item of that tag, in either header form, followed by rest; the reader wants three bytes. */
  predicate Reads(tag: byte, s: seq<byte>, content: seq<byte>, rest: seq<byte>) {
    && |s| >= 3
    && ((|content| < 0x80 && s == [tag, |content|] + content + rest)
        || (|content| < 0x100 && s == [tag, 0x81, |content|] + content + rest))
  }

  lemma ReadsIsTagOf(tag: byte, s: seq<byte>, content: seq<byte>, rest: seq<byte>)
    ensures Reads(tag, s, content, rest)
            <==> TagOf(tag, s).Ok?
                 && var Tag(h, n) := TagOf(tag, s).value; content == s[h..h + n] && rest == s[h + n..]
  {
    if TagOf(tag, s).Ok? {
      var Tag(h, n) := TagOf(tag, s).value;
      assert s[..h] == (if h == 2 then [tag, n] else [tag, 0x81, n]);
      assert s == s[..h] + s[h..h + n] + s[h + n..];
    }
    if Reads(tag, s, content, rest) {
      var h := if |content| < 0x80 && s == [tag, |content|] + content + rest then 2 else 3;
      assert s[0] == tag && s[h..h + |content|] == content && s[h + |content|..] == rest;
      assert h == 2 ==> s[1] == |content|;
      assert h == 3 ==> s[1] == 0x81 && s[2] == |content|;
    }
  }

  /** s starts with the header of an item that lies within it; inner is what follows the header. */
  ghost predicate Opens(tag: byte, s: seq<byte>, inner: seq<byte>) {
    exists content, rest :: Reads(tag, s, content, rest) && inner == content + rest
  }

  lemma OpensIsTagOf(tag: byte, s: seq<byte>, inner: seq<byte>)
    ensures Opens(tag, s, inner) <==> TagOf(tag, s).Ok? && inner == s[TagOf(tag, s).value.headerLen..]
  {
    hide TagOf, Reads;
    if TagOf(tag, s).Ok? {
      var Tag(h, n) := TagOf(tag, s).value;
      ReadsIsTagOf(tag, s, s[h..h + n], s[h + n..]);
      assert s[h..] == s[h..h + n] + s[h + n..];
    }
    if content, rest :| Reads(tag, s, content, rest) && inner == content + rest {
      ReadsIsTagOf(tag, s, content, rest);
      var h := TagOf(tag, s).value.headerLen;
      assert s[h..] == content + rest;
    }
  }

  /** Why a tag is refused. */
  lemma TagRefused(tag: byte, s: seq<byte>)
    ensures TagOf(tag, s) == Err(UnexpectedTag) <==> |s| >= 3 && s[0] != tag
    ensures TagOf(tag, s) == Err(UnknownSequence) <==> |s| >= 3 && s[0] == tag && s[1] >= 0x80 && s[1] != 0x81
    ensures TagOf(tag, s).Err? ==> TagOf(tag, s).error in {Malformed, UnexpectedTag, UnknownSequence}
  {
  }

  /** Reading a tag that was written, followed by its contents and anything else. */
  lemma TagOfWritten(tag: byte, content: seq<byte>, rest: seq<byte>)
    requires |content| < 256 && |content| + |rest| >= 1
    ensures var s := Tlv(tag, content) + rest;
            var h := |Header(tag, |content|)|;
            && TagOf(tag, s) == Ok(Tag(h, |content|))
            && s[h..h + |content|] == content && s[h + |content|..] == rest
            && h == (if |content| < 0x80 then 2 else 3)
  {
    HeaderShape(tag, |content|);
  }

  /** ecc_der_add_next_tag: header and, if given, contents.  At least three bytes of room are asked for. */
  method AddNextTag(tag: byte, typeLen: nat, data: Option<seq<byte>>, der: array<byte>, pos: nat, length: nat)
    returns (ok: bool, pos': nat, length': nat)
    requires typeLen < 256 && pos + length <= der.Length
    requires data.Some? ==> |data.value| == typeLen
    modifies der
    ensures ok == (length >= 3 && (data.Some? ==> length >= |Header(tag, typeLen)| + typeLen))
    ensures ok ==>
              var w := Header(tag, typeLen) + (if data.Some? then data.value else []);
              && |w| <= length && der[..] == Splice(old(der[..]), pos, w)
              && pos' == pos + |w| && length' == length - |w|
    ensures OutsideUnchanged(old(der[..]), der[..], pos, length)
  {
    HeaderShape(tag, typeLen);
    pos', length' := pos, length;
    ok := false;
    if length < 3 {
      return;
    }
    der[pos'] := tag;
    pos' := pos' + 1;
    if typeLen >= 0x80 {
      der[pos'] := 0x81;
      pos' := pos' + 1;
      length' := length' - 1;
    }
    der[pos'] := typeLen;
    pos' := pos' + 1;
    length' := length' - 2;
    ghost var was := old(der[..]);
    ghost var header := Header(tag, typeLen);
    SpliceFromParts(was, der[..], pos, header);
    SpliceStaysInside(was, pos, header, length);
    if data.Some? {
      if length' < typeLen {
        return;
      }
      SpliceAppend(was, pos, header, data.value);
      SpliceStaysInside(was, pos, header + data.value, length);
      CopyInto(der, pos', data.value);
      pos' := pos' + typeLen;
      length' := length' - typeLen;
    } else {
      assert header + [] == header;
    }
    ok := true;
  }

  lemma SpliceFromParts<T>(was: seq<T>, now: seq<T>, pos: nat, x: seq<T>)
    requires |now| == |was| && pos + |x| <= |was|
    requires now[..pos] == was[..pos] && now[pos..pos + |x|] == x && now[pos + |x|..] == was[pos + |x|..]
    ensures now == Splice(was, pos, x)
  {
    assert now == now[..pos] + now[pos..pos + |x|] + now[pos + |x|..];
  }
}
