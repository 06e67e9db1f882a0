/** Hash algorithms and the hash engine, an object whose calls may fail at any time.
    The hash itself is an arbitrary function with outputs of the right length. */
module HashEngines {
  import opened Bytes
  import opened Wrappers

  datatype HashAlg = Sha1 | Sha256 | Sha384 | Sha512 | UnknownHash

  /** hash_get_hash_length; an unknown algorithm has no length. */
  function HashLength(alg: HashAlg): (n: nat) {
    match alg
    case Sha1 => 20
    case Sha256 => 32
    case Sha384 => 48
    case Sha512 => 64
    case UnknownHash => 0
  }

  /** The digest sizes of FIPS 180-4. */
  lemma DigestSizes()
    ensures HashLength(Sha1) == 160 / 8 && HashLength(Sha256) == 256 / 8
    ensures HashLength(Sha384) == 384 / 8 && HashLength(Sha512) == 512 / 8
  {
  }

  type HashFunction = h: (HashAlg, seq<byte>) -> seq<byte> | forall a, s :: |h(a, s)| == HashLength(a)
    witness (a: HashAlg, s: seq<byte>) => Zeros(HashLength(a))

  class HashEngine {
    const H: HashFunction
    /** A reliable engine never fails on a known algorithm. */
    const reliable: bool
    var active: Option<HashAlg>
    var absorbed: seq<byte>

    constructor (h: HashFunction, reliable: bool)
      ensures H == h && this.reliable == reliable && active == None
    {
      H, this.reliable, active, absorbed := h, reliable, None, [];
    }

    method Start(alg: HashAlg) returns (ok: bool)
      modifies this
      ensures ok ==> active == Some(alg) && absorbed == []
      ensures !ok ==> active == None
      ensures reliable && alg != UnknownHash ==> ok
      ensures alg == UnknownHash ==> !ok
    {
      active, absorbed := None, [];
      var fault: bool := *;
      ok := alg != UnknownHash && (reliable || !fault);
      if ok {
        active := Some(alg);
      }
    }

    method Update(data: seq<byte>) returns (ok: bool)
      requires active.Some?
      modifies this
      ensures active == old(active)
      ensures ok ==> absorbed == old(absorbed) + data
      ensures reliable ==> ok
    {
      var fault: bool := *;
      ok := reliable || !fault;
      if ok {
        absorbed := absorbed + data;
      }
    }

    method Finish() returns (digest: Option<seq<byte>>)
      requires active.Some?
      modifies this
      ensures digest.Some? ==> digest.value == H(old(active.value), old(absorbed)) && active == None
      ensures digest.None? ==> active == old(active)
      ensures reliable ==> digest.Some?
    {
      var fault: bool := *;
      digest := None;
      if reliable || !fault {
        digest := Some(H(active.value, absorbed));
        active := None;
      }
    }

    method Cancel()
      modifies this
      ensures active == None
    {
      active := None;
    }
  }
}
