/** The collaborators the block header calls but does not define: the
    cryptographic hasher behind cry.NewHasher, the byte layer of the RLP
    codec, and public-key recovery in dsa.Signer. They are gathered in one
    value, Primitives, that every operation of the header takes as a
    parameter, so each property proved holds for every choice of them. */
module Externals {
  import opened Binary
  import opened Wrappers
  import opened Rlp

  /** Thirty-two zero bytes. */
  const Zeros: seq<byte> :=
    [0, 0, 0, 0, 0, 0, 0, 0, 0, 0, 0, 0, 0, 0, 0, 0,
     0, 0, 0, 0, 0, 0, 0, 0, 0, 0, 0, 0, 0, 0, 0, 0]

  /** cry.Hash: a 32-byte digest. */
  type Hash = s: seq<byte> | |s| == 32 witness Zeros

  /** acc.Address: a 20-byte account identifier. */
  type Address = s: seq<byte> | |s| == 20 witness Zeros[..20]

  /** The all-zero hash, cry.Hash{}; a block whose parent hash is this one is
      the genesis block. */
  const ZeroHash: Hash := Zeros

  datatype Primitives = Primitives(
    /** The hasher: any byte string to a 32-byte digest. */
    digest: seq<byte> -> Hash,
    /** RLP: an item to bytes. */
    encode: Item -> seq<byte>,
    /** RLP: bytes to an item, or the reason they are malformed. */
    decode: seq<byte> -> Result<Item, string>,
    /** dsa.Signer: the account whose key produced the signature over the
        hash, or the reason recovery failed. */
    recover: (Hash, seq<byte>) -> Result<Address, string>)

  /** The law of the RLP codec: decoding the encoding of an item gives that
      item back. */
  ghost predicate CodecRoundTrips(p: Primitives)
  {
    forall i :: p.decode(p.encode(i)) == Success(i)
  }
}
