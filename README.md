# thor block header, modelled in Dafny

This project models the block header of the thor ledger (`block/header.go`).
A header is an immutable value: its content holds ten serialized fields
(parent hash, timestamp, total score, gas limit, gas used, beneficiary, the
transactions, state and receipts roots, and the signature). Each header
object also has two cache slots, one for the block hash and one for the
signer.

- **Block number.** A block's number is never stored. The free function
  `Number` reads it big-endian from the first four bytes of a hash.
  `Header.Number()` is 0 when the parent hash is all zeros (the genesis
  block). Otherwise it is the parent hash's number plus one, in Go `uint32`
  arithmetic, so it wraps at 2^32.
- **Block hash.** `Hash()` digests the RLP encoding of the content. It then
  overwrites bytes 0..3 of the digest with the block's own number. So a
  child reads its height from its parent's hash.
- **Signing hash.** `HashForSigning()` digests eight of the fields. It leaves
  out `TotalScore` and `Signature`.
- **Caches and immutability.** `Hash()` and `Signer()` fill their cache slot
  at most once. `WithSignature` returns a new header with empty caches and
  leaves the receiver alone. `DecodeRLP` replaces the whole header, caches
  included.

The hasher, the byte layer of RLP and ECDSA public-key recovery are not
defined here. They are the fields of a `Primitives` value that every
operation takes as a parameter (module `Externals`). So every property below
holds whatever those functions are. Where a property needs the RLP law
"decoding an encoding gives the item back", it is a hypothesis
(`CodecRoundTrips`).

Modules:

- `Binary` (binary.dfy): Go's byte and integer widths, and the two
  `encoding/binary` big-endian helpers the header uses.
- `Rlp` (rlp.dfy): the RLP item tree, and the canonical spelling of unsigned
  integers as byte strings.
- `Externals` (externals.dfy): `Hash`, `Address`, the zero hash and the
  `Primitives` interface.
- `Block` (header.dfy): the content, number, encoding, hashes, signer, chain
  lemmas and the `Header` class.
- `Wrappers` (wrappers.dfy): `Option` and `Result`.

The accessors `ParentHash()`, `Timestamp()`, … `ReceiptsRoot()` are plain
projections of the content. In the model they are the destructors of the
`HeaderContent` datatype.

Two behaviours of the code the model keeps on purpose:

- The block number wraps modulo 2^32 rather than saturating or failing.
- The hash is cached per object, not per distinct content.

## Model

| member | source | states |
|---|---|---|
| `Block.NumberOfHash` | block/header.go:181-185 | `Number(hash)` is `hash[0]*2^24 + hash[1]*2^16 + hash[2]*2^8 + hash[3]`, the same value as the general big-endian reading `BeValue` of `hash[..4]`. Two hashes that agree on bytes 0..3 have the same number, so bytes 4..31 never affect it. |
| `Binary.PutUint32` | block/header.go:109-110 | Writing a `uint32` into a byte array in place changes exactly bytes 0..3, to the big-endian bytes of the value. The rest of the array is unchanged. |
| `Binary.Uint32OfBytes` | block/header.go:182-185 | Reading the four bytes that `PutUint32` writes gives back the number written, for every `uint32`. |
| `Binary.BytesOfUint32` | block/header.go:182-185 | Converse round trip: writing the number read from four bytes reproduces exactly those four bytes. |
| `Block.HeaderNumberCases` | block/header.go:47-55 | An all-zero parent hash gives number 0. Any other parent hash gives `(Number(parentHash) + 1) mod 2^32`, which is `Number(parentHash) + 1` below the wrap. |
| `Block.BlockHash` | block/header.go:97-114 | The block hash carries the block number: `Number(BlockHash(c)) == HeaderNumber(c)`. Its bytes 0..3 are the big-endian number. Its bytes 4..31 are those of the digest of the encoded content. |
| `Block.Header.Hash` | block/header.go:98-114 | Returns the block hash of the current content. After the call the cache holds that hash. A filled cache is returned as is. The digest is computed exactly when the cache was empty. Content and signer cache are untouched. |
| `Block.ContentItemRoundTrip` | block/header.go:26-40 | The typed decoder of `headerContent` returns every content from its ten-field RLP item. |
| `Block.ContentOfCanonical` | block/header.go:168-179 | The typed decoder accepts an item only if it is exactly the encoding of the content it returns. Fields must be in order, exactly ten, hashes 32 bytes, the address 20 bytes, integers without leading zeros, the timestamp at most 8 bytes. |
| `Block.Encode` | block/header.go:163-166 | `EncodeRLP` serializes the content only, never the caches. Under the codec law, decoding the encoding gives the content back. |
| `Block.Decode` | block/header.go:168-179 | A successful decode means the bytes hold exactly the RLP item of the decoded content. Otherwise it is a `Malformed` or `NotHeaderContent` error. |
| `Block.EncodeInjective` | block/header.go:163-166 | Under the codec law, two contents with the same full encoding are equal, so the block hash input covers all ten fields. |
| `Block.SigningHashExcludesScoreAndSignature` | block/header.go:116-134 | Changing `TotalScore` and `Signature` never changes `HashForSigning`. |
| `Block.SigningEncodingSeparates` | block/header.go:116-134 | Under the codec law, two contents have equal signing encodings if and only if they agree on ParentHash, Timestamp, GasLimit, GasUsed, Beneficiary, TxsRoot, StateRoot and ReceiptsRoot. |
| `Block.SignerOfCases` | block/header.go:145-161 | `Signer` fails with NotSigned if and only if the signature is empty. With a signature it succeeds if and only if recovery over the signing hash succeeds, and then returns the recovered account. |
| `Block.SignatureRecoversSigner` | block/header.go:136-161 | Attach a signature whose recovery over a header's signing hash gives `account`. The new header's signer is then `account`, and its signing hash equals the original's. |
| `Block.WithSignatureKeepsFields` | block/header.go:136-143 | Attaching a signature keeps every signed field, the total score and the block number. The new signature is exactly the one given. |
| `Block.ChildNumber` | block/header.go:48-55 | A child whose parent hash is its parent's block hash, not all zeros, is numbered `(parent number + 1) mod 2^32`. |
| `Block.ZeroBlockHashOnlyAtZero` | block/header.go:106-110 | A block hash can be the all-zero genesis sentinel only for a block numbered 0. |
| `Block.ChainNumbers` | block/header.go:47-55 | In a hash-linked chain of any length, header i is numbered `(number of header 0 + i) mod 2^32`. |
| `Block.GenesisChainNumbers` | block/header.go:47-55 | A hash-linked chain starting at a genesis header numbers its headers `i mod 2^32`. |
| `Block.Header.constructor` | block/header.go:140-142 | `&Header{content: c}`: the given content with both caches empty. |
| `Block.Header.WithSignature` | block/header.go:136-143 | Returns a fresh header. Its content is the receiver's with a copy of `sig` as Signature, and both caches are empty. The receiver is not in the frame, so it is unchanged. |
| `Block.Header.Signer` | block/header.go:145-161 | Returns the result above. NotSigned wins over a filled cache. Success fills the signer cache. Failure leaves the cache as it was. Recovery runs only when the signature is non-empty and the cache is empty. The hash cache and content are untouched. |
| `Block.Header.DecodeRLP` | block/header.go:168-179 | On success the header holds the decoded content with both caches empty. On failure it returns the error and leaves content and caches unchanged. |
| `Block.SignGenesis` | block/header.go:97-161 | For genesis content (zero parent hash), the hash starts with four zero bytes. The signed copy still has number 0. Its signer is the account recovered from the signature over the unsigned header's signing hash. An empty signature gives NotSigned. In every case the signer is `SignerOf` of the genesis content with the signature attached, so a failed recovery is reported as its `RecoveryFailed` error. |

## Left out

- The hash behind `cry.NewHasher`, the byte-level RLP encoding (including its
  single-byte and length-prefix rules), and ECDSA recovery in `dsa.Signer`.
  They are the `digest`, `encode`/`decode` and `recover` fields of
  `Primitives`, with no properties assumed except the codec round-trip law
  where stated.
- `io.Writer` and `rlp.Stream` plumbing. `EncodeRLP`'s error result is also
  left out, since encoding a header cannot fail in the model. Decoding
  consumes a whole byte string rather than one value from a stream.
- The typed decoding rules of go-ethereum's RLP are stated at the item
  level: exact list length, exact byte-array length, no leading zero in an
  integer, at most 8 bytes for `uint64`. `bn.Int` is assumed to encode and
  decode like a big integer.
- `bn.Int` internals: those fields are unbounded naturals.
- Concurrent access to the cache slots: the code has no synchronisation.
  The model is sequential.
- Pointer identity of returned values. `Hash()` and `Signer()` return
  values (sequences), so the copy `Signer()` makes to protect its cache is
  implicit.
- Block.SigningEncodingSeparates: says that a different timestamp gives a
  different signing encoding, not a different signing hash, because the
  digest is abstract and need not be injective.
- Semantic validation of gas, timestamps or scores: the code does none.
