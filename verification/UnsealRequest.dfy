/** The unseal request: the length checks of the command handler against the request's grammar, and the fields the
    background task finds in its copy (core/cmd_interface/cerberus_protocol_optional_commands.[ch]). */
module UnsealRequest {
  import opened Bytes
  import opened Wrappers

  datatype RequestError = BadLength | OutOfRange

  const HMAC_LENGTH: nat := 32
  const PMRS_LENGTH: nat := 320

  /** sizeof (struct cerberus_protocol_message_unseal): five header bytes, two of options, a length, one of seed. */
  const FIXED_LENGTH: nat := 10

  // The packed layout and the pointer macros that walk it

  function SeedType(mem: seq<byte>): nat
    requires |mem| >= FIXED_LENGTH
  {
    mem[5] % 4
  }

  function HmacType(mem: seq<byte>): nat
    requires |mem| >= FIXED_LENGTH
  {
    mem[5] / 4 % 8
  }

  function RsaPadding(mem: seq<byte>): nat
    requires |mem| >= FIXED_LENGTH
  {
    mem[6] % 8
  }

  function EcdhProcessing(mem: seq<byte>): nat
    requires |mem| >= FIXED_LENGTH
  {
    mem[6] % 2
  }

  function SeedLength(mem: seq<byte>): nat
    requires |mem| >= FIXED_LENGTH
  {
    FromLE16(mem[7..9])
  }

  function CiphertextPtr(mem: seq<byte>): nat
    requires |mem| >= FIXED_LENGTH
  {
    FIXED_LENGTH + SeedLength(mem) - 1
  }

  function CiphertextLength(mem: seq<byte>): nat
    requires |mem| >= FIXED_LENGTH && CiphertextPtr(mem) + 2 <= |mem|
  {
    FromLE16(mem[CiphertextPtr(mem)..CiphertextPtr(mem) + 2])
  }

  function HmacPtr(mem: seq<byte>): nat
    requires |mem| >= FIXED_LENGTH && CiphertextPtr(mem) + 2 <= |mem|
  {
    CiphertextPtr(mem) + 2 + CiphertextLength(mem)
  }

  function HmacLength(mem: seq<byte>): nat
    requires |mem| >= FIXED_LENGTH && CiphertextPtr(mem) + 2 <= |mem| && HmacPtr(mem) + 2 <= |mem|
  {
    FromLE16(mem[HmacPtr(mem)..HmacPtr(mem) + 2])
  }

  function PmrPtr(mem: seq<byte>): nat
    requires |mem| >= FIXED_LENGTH && CiphertextPtr(mem) + 2 <= |mem| && HmacPtr(mem) + 2 <= |mem|
  {
    HmacPtr(mem) + 2 + HmacLength(mem)
  }

  /** The checks of cerberus_protocol_unseal_message on the first `length` bytes of a larger buffer, in order.  The
      seventh one compares the ciphertext pointer where the HMAC pointer would be expected. */
  function Check(mem: seq<byte>, length: nat): (error: Option<RequestError>)
    requires length < |mem|
  {
    if length < FIXED_LENGTH then Some(BadLength)
    else if HmacType(mem) != 0 || SeedType(mem) > 1 then Some(OutOfRange)
    else if SeedType(mem) == 0 && RsaPadding(mem) > 2 then Some(OutOfRange)
    else if SeedLength(mem) == 0 || CiphertextPtr(mem) >= length then Some(BadLength)
    else if CiphertextPtr(mem) + 3 >= length then Some(BadLength)
    else if CiphertextLength(mem) == 0 || HmacPtr(mem) >= length then Some(BadLength)
    else if CiphertextPtr(mem) + 3 >= length then Some(BadLength)
    else if HmacLength(mem) != HMAC_LENGTH || PmrPtr(mem) >= length then Some(BadLength)
    else if PmrPtr(mem) + PMRS_LENGTH != length then Some(BadLength)
    else None
  }

  // The grammar

  datatype Unseal = Unseal(
    header: seq<byte>, options: byte, params: byte, seed: seq<byte>, ciphertext: seq<byte>, hmac: seq<byte>,
    pmrs: seq<byte>)

  /** SHA-256 HMAC, an RSA seed with a known padding or an ECDH seed, and fields of the right sizes. */
  predicate WellFormed(u: Unseal) {
    && |u.header| == 5
    && u.options / 4 % 8 == 0 && u.options % 4 <= 1
    && (u.options % 4 == 0 ==> u.params % 8 <= 2)
    && 1 <= |u.seed| < 0x1_0000
    && 1 <= |u.ciphertext| < 0x1_0000
    && |u.hmac| == HMAC_LENGTH
    && |u.pmrs| == PMRS_LENGTH
  }

  function Serialize(u: Unseal): seq<byte> {
    u.header + [u.options, u.params] + LE16(|u.seed|) + u.seed + LE16(|u.ciphertext|) + u.ciphertext
    + LE16(|u.hmac|) + u.hmac + u.pmrs
  }

  // What the background task finds

  /** The arguments that are re-derived from the event buffer. */
  datatype Fields = Fields(seedType: nat, seedParam: nat, seed: seq<byte>, ciphertext: seq<byte>, hmac: seq<byte>,
                           pmrs: seq<byte>)

  predicate Walkable(mem: seq<byte>) {
    && |mem| >= FIXED_LENGTH && CiphertextPtr(mem) + 2 <= |mem| && HmacPtr(mem) + 2 <= |mem|
    && PmrPtr(mem) + PMRS_LENGTH <= |mem|
  }

  function FieldsOf(mem: seq<byte>): Fields
    requires Walkable(mem)
  {
    Fields(
      SeedType(mem),
      if SeedType(mem) == 1 then EcdhProcessing(mem) else RsaPadding(mem),
      mem[FIXED_LENGTH - 1..CiphertextPtr(mem)],
      mem[CiphertextPtr(mem) + 2..HmacPtr(mem)],
      mem[HmacPtr(mem) + 2..PmrPtr(mem)],
      mem[PmrPtr(mem)..PmrPtr(mem) + PMRS_LENGTH])
  }

  // The two agree

  lemma LE16Of(s: seq<byte>)
    requires |s| == 2
    ensures LE16(FromLE16(s)) == s
  {
  }

  /** Where everything lies in a serialized request followed by anything. */
  lemma Layout(u: Unseal, rest: seq<byte>)
    requires WellFormed(u)
    ensures var mem := Serialize(u) + rest;
            && |Serialize(u)| == 13 + |u.seed| + |u.ciphertext| + 352
            && mem[5] == u.options && mem[6] == u.params
            && Walkable(mem)
            && SeedLength(mem) == |u.seed| && CiphertextLength(mem) == |u.ciphertext| && HmacLength(mem) == HMAC_LENGTH
            && FieldsOf(mem) == Fields(u.options % 4, if u.options % 4 == 1 then u.params % 2 else u.params % 8,
                                       u.seed, u.ciphertext, u.hmac, u.pmrs)
  {
    hide LE16, FromLE16, Serialize;
    Pieces(u, rest);
    LE16RoundTrip(|u.seed|);
    LE16RoundTrip(|u.ciphertext|);
    LE16RoundTrip(HMAC_LENGTH);
  }

  lemma Pieces(u: Unseal, rest: seq<byte>)
    requires WellFormed(u)
    ensures var mem, n, k := Serialize(u) + rest, |u.seed|, |u.ciphertext|;
            && |Serialize(u)| == 13 + n + k + 352
            && mem[5] == u.options && mem[6] == u.params
            && mem[7..9] == LE16(n) && mem[9..9 + n] == u.seed
            && mem[9 + n..11 + n] == LE16(k) && mem[11 + n..11 + n + k] == u.ciphertext
            && mem[11 + n + k..13 + n + k] == LE16(HMAC_LENGTH) && mem[13 + n + k..45 + n + k] == u.hmac
            && mem[45 + n + k..365 + n + k] == u.pmrs
  {
    hide LE16;
    var mem := Serialize(u) + rest;
    var n, k := |u.seed|, |u.ciphertext|;
    assert mem[5] == u.options && mem[6] == u.params;
    assert mem[7..9] == LE16(n);
    assert mem[9..9 + n] == u.seed;
    assert mem[9 + n..11 + n] == LE16(k);
    assert mem[11 + n..11 + n + k] == u.ciphertext;
    assert mem[11 + n + k..13 + n + k] == LE16(HMAC_LENGTH);
    assert mem[13 + n + k..45 + n + k] == u.hmac;
    assert mem[45 + n + k..365 + n + k] == u.pmrs;
  }

  /** The request a buffer that passes the checks stands for. */
  ghost function Parsed(mem: seq<byte>, length: nat): Unseal
    requires length < |mem| && Check(mem, length) == None
  {
    Unseal(mem[..5], mem[5], mem[6], mem[9..CiphertextPtr(mem)], mem[CiphertextPtr(mem) + 2..HmacPtr(mem)],
           mem[HmacPtr(mem) + 2..PmrPtr(mem)], mem[PmrPtr(mem)..length])
  }

  lemma ParsedIsTheMessage(mem: seq<byte>, length: nat)
    requires length < |mem| && Check(mem, length) == None
    ensures WellFormed(Parsed(mem, length)) && Serialize(Parsed(mem, length)) == mem[..length]
  {
    hide LE16, FromLE16;
    var u := Parsed(mem, length);
    var c, h, p := CiphertextPtr(mem), HmacPtr(mem), PmrPtr(mem);
    LE16Of(mem[7..9]);
    LE16Of(mem[c..c + 2]);
    LE16Of(mem[h..h + 2]);
    assert |u.seed| == SeedLength(mem) && |u.ciphertext| == CiphertextLength(mem) && |u.hmac| == HMAC_LENGTH;
    Reassemble(mem, length, c, h, p);
  }

  lemma Reassemble(mem: seq<byte>, length: nat, c: nat, h: nat, p: nat)
    requires 9 <= c && c + 2 <= h && h + 2 <= p <= length <= |mem|
    ensures mem[..5] + [mem[5], mem[6]] + mem[7..9] + mem[9..c] + mem[c..c + 2] + mem[c + 2..h] + mem[h..h + 2]
            + mem[h + 2..p] + mem[p..length] == mem[..length]
  {
    assert mem[..5] + [mem[5], mem[6]] == mem[..7];
    assert mem[..7] + mem[7..9] == mem[..9];
    assert mem[..9] + mem[9..c] == mem[..c];
    assert mem[..c] + mem[c..c + 2] == mem[..c + 2];
    assert mem[..c + 2] + mem[c + 2..h] == mem[..h];
    assert mem[..h] + mem[h..h + 2] == mem[..h + 2];
    assert mem[..h + 2] + mem[h + 2..p] == mem[..p];
    assert mem[..p] + mem[p..length] == mem[..length];
  }

  /** The checks accept a message exactly when it is, byte for byte, a well-formed request with nothing left over.
      Although the HMAC length may be read partly from beyond the message, that never changes the verdict. */
  lemma CheckIsTheGrammar(mem: seq<byte>, length: nat)
    requires length < |mem|
    ensures Check(mem, length) == None <==> exists u :: WellFormed(u) && mem[..length] == Serialize(u)
  {
    hide Check, Serialize, WellFormed;
    if Check(mem, length) == None {
      ParsedIsTheMessage(mem, length);
    }
    if u :| WellFormed(u) && mem[..length] == Serialize(u) {
      SerializedPasses(mem, length, u);
    }
  }

  /** A refusal is out of range exactly for a message of the fixed length or more whose HMAC is not SHA-256, whose seed
      is neither RSA nor ECDH, or whose RSA padding is unknown; every other refusal is for a length. */
  lemma RefusalMeans(mem: seq<byte>, length: nat)
    requires length < |mem|
    ensures Check(mem, length) == Some(OutOfRange)
            <==> length >= 10 && ((mem[5] / 4 % 8 != 0 || mem[5] % 4 > 1) || (mem[5] % 4 == 0 && mem[6] % 8 > 2))
    ensures Check(mem, length) in {None, Some(OutOfRange), Some(BadLength)}
  {
    hide FromLE16;
  }

  lemma SerializedPasses(mem: seq<byte>, length: nat, u: Unseal)
    requires length < |mem| && WellFormed(u) && mem[..length] == Serialize(u)
    ensures Check(mem, length) == None
  {
    hide LE16, FromLE16, Serialize;
    assert mem == Serialize(u) + mem[length..];
    Layout(u, mem[length..]);
  }

  /** A message is a request in one way only. */
  lemma GrammarIsUnambiguous(u: Unseal, v: Unseal)
    requires WellFormed(u) && WellFormed(v) && Serialize(u) == Serialize(v)
    ensures u == v
  {
    hide LE16, FromLE16;
    Layout(u, []);
    Layout(v, []);
    assert Serialize(u) + [] == Serialize(v) + [];
    assert u.header == Serialize(u)[..5] && v.header == Serialize(v)[..5];
  }

  /** The background task gets the fields of the accepted request from its copy, whatever the event buffer held
      before: the same partition the checks saw. */
  lemma TaskSeesTheRequest(mem: seq<byte>, length: nat, stale: seq<byte>)
    requires length < |mem| && Check(mem, length) == None
    ensures var u := Parsed(mem, length);
            && Walkable(mem[..length] + stale)
            && FieldsOf(mem[..length] + stale)
               == Fields(u.options % 4, if u.options % 4 == 1 then u.params % 2 else u.params % 8,
                         u.seed, u.ciphertext, u.hmac, u.pmrs)
  {
    hide Check, Serialize, Walkable, FieldsOf;
    ParsedIsTheMessage(mem, length);
    Layout(Parsed(mem, length), stale);
  }
}
