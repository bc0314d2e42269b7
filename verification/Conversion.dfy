/** The conversions between typed values and 32-byte words. */
module Conversion {
  import opened Evm

  datatype Kind = Bytes32 | Uint256 | Address

  function Limit(kind: Kind): nat {
    match kind
    case Bytes32 => UINT256_LIMIT
    case Uint256 => UINT256_LIMIT
    case Address => UINT160_LIMIT
  }

  /** The values of a type: for an address, 160 bits. */
  predicate InType(kind: Kind, v: nat) {
    v < Limit(kind)
  }

  function ToBytes32(kind: Kind, v: nat): nat {
    match kind
    case Bytes32 => v
    case Uint256 => Truncate(v, UINT256_LIMIT)
    case Address => Truncate(Truncate(v, UINT160_LIMIT), UINT256_LIMIT)
  }

  function FromBytes32(kind: Kind, w: nat): nat {
    match kind
    case Bytes32 => w
    case Uint256 => Truncate(w, UINT256_LIMIT)
    case Address => Truncate(Truncate(w, UINT256_LIMIT), UINT160_LIMIT)
  }

  /** A typed value comes back from its word, which both casts leave as it is. */
  lemma CastsKeep(kind: Kind, v: nat)
    requires InType(kind, v)
    ensures v < UINT256_LIMIT && ToBytes32(kind, v) == v && FromBytes32(kind, v) == v
    ensures FromBytes32(kind, ToBytes32(kind, v)) == v
  {
  }

  /** A word comes back from its typed value exactly when it is in the type's image. */
  lemma ToFrom(kind: Kind, w: nat)
    requires w < UINT256_LIMIT
    ensures ToBytes32(kind, FromBytes32(kind, w)) == w <==> InType(kind, w)
  {
  }

  /** Reading an address out of a word forgets the upper bits: outside the image the read is
      not injective. */
  lemma TruncationCollides(w: nat)
    requires InType(Address, w)
    ensures FromBytes32(Address, w + UINT160_LIMIT) == FromBytes32(Address, w)
  {
  }
}
