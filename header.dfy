/** The block header of the thor ledger (block/header.go).

    A header is its content, ten fields that are serialized with RLP, plus
    two per-instance cache slots for the block hash and the signer. The
    block number is not stored: it is read from the first four bytes of the
    parent hash, and the block hash carries the block's own number in its
    first four bytes, so that every child can read its height from its
    parent's hash. */
module Block {
  import opened Binary
  import opened Wrappers
  import opened Rlp
  import opened Externals

  /** headerContent: the serialized part of a header. The accessors of
      Header (ParentHash(), Timestamp(), ...) are the destructors of this
      datatype. bn.Int fields are unbounded naturals. */
  datatype HeaderContent = HeaderContent(
    parentHash: Hash,
    timestamp: uint64,
    totalScore: nat,
    gasLimit: nat,
    gasUsed: nat,
    beneficiary: Address,
    txsRoot: Hash,
    stateRoot: Hash,
    receiptsRoot: Hash,
    signature: seq<byte>)

  /** Why Signer() returns no address. */
  datatype SignerError = NotSigned | RecoveryFailed(cause: string)

  /** Why DecodeRLP rejects its input: the bytes are not RLP, or the item
      they hold does not have the shape of headerContent. */
  datatype DecodeError = Malformed(cause: string) | NotHeaderContent

  // ---------------------------------------------------------------------
  // Block numbers

  /** The free function Number: the block number stored big-endian in the
      first four bytes of a block hash. */
  function Number(hash: Hash): uint32
  {
    Uint32(hash[..4])
  }

  /** Header.Number(): 0 for the genesis block (zero parent hash), otherwise
      one more than the parent's number, in uint32 arithmetic. */
  function HeaderNumber(c: HeaderContent): uint32
  {
    if c.parentHash == ZeroHash then 0 else (Number(c.parentHash) + 1) % TwoTo32
  }

  /** Number reads exactly bytes 0..3, most significant first; the other 28
      bytes of a hash never affect it. */
  lemma NumberOfHash(hash: Hash, other: Hash)
    ensures Number(hash) == (hash[0] as int) * 0x100_0000 + (hash[1] as int) * 0x1_0000 + (hash[2] as int) * 0x100 + hash[3]
    ensures hash[..4] == other[..4] ==> Number(hash) == Number(other)
    ensures Number(hash) == BeValue(hash[..4])
  {
    var h := hash[..4];
    assert h[..3] == hash[..3] && h[..3][..2] == hash[..2];
    assert hash[..2][..1] == hash[..1] && hash[..1][..0] == [];
    assert BeValue(hash[..1]) == hash[0];
    assert BeValue(hash[..2]) == (hash[0] as int) * 0x100 + hash[1];
    assert BeValue(hash[..3]) == ((hash[0] as int) * 0x100 + hash[1]) * 0x100 + hash[2];
  }

  /** The genesis header has number 0; any other header is numbered one
      past the number its parent hash carries, wrapping at 2^32. */
  lemma HeaderNumberCases(c: HeaderContent)
    ensures c.parentHash == ZeroHash ==> HeaderNumber(c) == 0
    ensures c.parentHash != ZeroHash ==> HeaderNumber(c) == (Number(c.parentHash) + 1) % TwoTo32
    ensures c.parentHash != ZeroHash && Number(c.parentHash) < TwoTo32 - 1 ==>
              HeaderNumber(c) == Number(c.parentHash) + 1
  {
  }

  // ---------------------------------------------------------------------
  // Serialization (EncodeRLP / DecodeRLP)

  /** The RLP item of headerContent: its ten fields in declaration order. */
  function ContentItem(c: HeaderContent): Item
  {
    List([Str(c.parentHash), Str(UintBytes(c.timestamp)), Str(UintBytes(c.totalScore)),
          Str(UintBytes(c.gasLimit)), Str(UintBytes(c.gasUsed)), Str(c.beneficiary),
          Str(c.txsRoot), Str(c.stateRoot), Str(c.receiptsRoot), Str(c.signature)])
  }

  /** Decoding a cry.Hash: a string of exactly 32 bytes. */
  function HashOf(i: Item): Option<Hash>
  {
    if i.Str? && |i.bytes| == 32 then Some(i.bytes) else None
  }

  /** Decoding an acc.Address: a string of exactly 20 bytes. */
  function AddressOf(i: Item): Option<Address>
  {
    if i.Str? && |i.bytes| == 20 then Some(i.bytes) else None
  }

  /** Decoding a uint64: a canonical integer string of at most 8 bytes. */
  function Uint64Of(i: Item): Option<uint64>
  {
    if !i.Str? || |i.bytes| > 8 then None
    else
      var n :- UintOf(i.bytes);
      Uint64Bound(i.bytes);
      Some(n as uint64)
  }

  /** Decoding a bn.Int: a canonical integer string of any length. */
  function BigOf(i: Item): Option<nat>
  {
    if i.Str? then UintOf(i.bytes) else None
  }

  /** Decoding a byte slice: any string. */
  function BytesOf(i: Item): Option<seq<byte>>
  {
    if i.Str? then Some(i.bytes) else None
  }

  /** Decoding headerContent: a list of exactly ten items, each of the
      type of the field at its position. Go stops at the first field that
      fails; every failure gives None here, so the order does not show. */
  function ContentOf(i: Item): Option<HeaderContent>
  {
    if !i.List? || |i.items| != 10 then None
    else
      var f := i.items;
      var parentHash, timestamp, totalScore, gasLimit, gasUsed :=
        HashOf(f[0]), Uint64Of(f[1]), BigOf(f[2]), BigOf(f[3]), BigOf(f[4]);
      var beneficiary, txsRoot, stateRoot, receiptsRoot, signature :=
        AddressOf(f[5]), HashOf(f[6]), HashOf(f[7]), HashOf(f[8]), BytesOf(f[9]);
      if && parentHash.Some? && timestamp.Some? && totalScore.Some? && gasLimit.Some?
         && gasUsed.Some? && beneficiary.Some? && txsRoot.Some? && stateRoot.Some?
         && receiptsRoot.Some? && signature.Some?
      then
        Some(HeaderContent(parentHash.value, timestamp.value, totalScore.value, gasLimit.value,
                           gasUsed.value, beneficiary.value, txsRoot.value, stateRoot.value,
                           receiptsRoot.value, signature.value))
      else None
  }

  /** An integer field decodes from its canonical string. */
  lemma UintFieldDecodes(n: nat)
    ensures BigOf(Str(UintBytes(n))) == Some(n)
    ensures n < 0x1_0000_0000_0000_0000 ==> Uint64Of(Str(UintBytes(n))) == Some(n)
  {
    UintRoundTrip(n);
    if n < 0x1_0000_0000_0000_0000 {
      Uint64Short(n);
    }
  }

  /** An integer field decodes only from its canonical string. */
  lemma UintFieldCanonical(n: nat, i: Item)
    requires BigOf(i) == Some(n) || Uint64Of(i) == Some(n)
    ensures i == Str(UintBytes(n))
  {
    UintOfCanonical(i.bytes);
  }

  /** The eight fixed-type items (hashes, address, signature) decode to the
      matching fields of c. */
  predicate BytesFieldsDecodeTo(f: seq<Item>, c: HeaderContent)
    requires |f| == 10
  {
    && HashOf(f[0]) == Some(c.parentHash) && AddressOf(f[5]) == Some(c.beneficiary)
    && HashOf(f[6]) == Some(c.txsRoot) && HashOf(f[7]) == Some(c.stateRoot)
    && HashOf(f[8]) == Some(c.receiptsRoot) && BytesOf(f[9]) == Some(c.signature)
  }

  /** The four integer items decode to the matching fields of c. */
  predicate UintFieldsDecodeTo(f: seq<Item>, c: HeaderContent)
    requires |f| == 10
  {
    && Uint64Of(f[1]) == Some(c.timestamp) && BigOf(f[2]) == Some(c.totalScore)
    && BigOf(f[3]) == Some(c.gasLimit) && BigOf(f[4]) == Some(c.gasUsed)
  }

  /** The typed decoder succeeds exactly when every item decodes. */
  lemma ContentOfFields(f: seq<Item>, c: HeaderContent)
    ensures ContentOf(List(f)) == Some(c) <==>
              |f| == 10 && BytesFieldsDecodeTo(f, c) && UintFieldsDecodeTo(f, c)
  {
  }

  /** The fields of a content item decode to the fields of the content. */
  lemma ContentItemFields(c: HeaderContent)
    ensures BytesFieldsDecodeTo(ContentItem(c).items, c)
    ensures UintFieldsDecodeTo(ContentItem(c).items, c)
  {
    UintFieldDecodes(c.timestamp);
    UintFieldDecodes(c.totalScore);
    UintFieldDecodes(c.gasLimit);
    UintFieldDecodes(c.gasUsed);
  }

  /** Items whose integer fields decode to those of c are c's integer items. */
  lemma UintFieldsAreContentItem(f: seq<Item>, c: HeaderContent)
    requires |f| == 10 && UintFieldsDecodeTo(f, c)
    ensures f[1..5] == ContentItem(c).items[1..5]
  {
    UintFieldCanonical(c.timestamp, f[1]);
    UintFieldCanonical(c.totalScore, f[2]);
    UintFieldCanonical(c.gasLimit, f[3]);
    UintFieldCanonical(c.gasUsed, f[4]);
  }

  /** Items that decode to the fields of c are the items of c's encoding. */
  lemma FieldsAreContentItem(f: seq<Item>, c: HeaderContent)
    requires |f| == 10 && BytesFieldsDecodeTo(f, c) && UintFieldsDecodeTo(f, c)
    ensures f == ContentItem(c).items
  {
    var g := ContentItem(c).items;
    UintFieldsAreContentItem(f, c);
    assert f[1..5] == g[1..5];
    assert f == f[..1] + f[1..5] + f[5..];
    assert g == g[..1] + g[1..5] + g[5..];
  }

  /** The typed decoder reads back every content item it is given. */
  lemma ContentItemRoundTrip(c: HeaderContent)
    ensures ContentOf(ContentItem(c)) == Some(c)
  {
    ContentItemFields(c);
    ContentOfFields(ContentItem(c).items, c);
  }

  /** The typed decoder accepts only items that are the encoding of what it
      returns: there is no second spelling of a header. */
  lemma ContentOfCanonical(i: Item, c: HeaderContent)
    requires ContentOf(i) == Some(c)
    ensures i == ContentItem(c)
  {
    ContentOfFields(i.items, c);
    FieldsAreContentItem(i.items, c);
  }

  /** EncodeRLP: the RLP bytes of the content only; the cache slots are
      never serialized. Under the codec law, decoding gives the content back. */
  function Encode(p: Primitives, c: HeaderContent): (b: seq<byte>)
    ensures CodecRoundTrips(p) ==> Decode(p, b) == Success(c)
  {
    ContentItemRoundTrip(c);
    p.encode(ContentItem(c))
  }

  /** The content DecodeRLP reads from its input, or why there is none. */
  function Decode(p: Primitives, b: seq<byte>): (r: Result<HeaderContent, DecodeError>)
    ensures r.Success? ==> p.decode(b) == Success(ContentItem(r.value))
  {
    match p.decode(b)
    case Failure(e) => Failure(Malformed(e))
    case Success(i) =>
      match ContentOf(i)
      case None => Failure(NotHeaderContent)
      case Some(c) =>
        ContentOfCanonical(i, c);
        Success(c)
  }

  /** Under the codec law, the full encoding tells every one of the ten
      fields apart: two contents with the same encoding are equal. */
  lemma EncodeInjective(p: Primitives, a: HeaderContent, b: HeaderContent)
    requires CodecRoundTrips(p)
    requires Encode(p, a) == Encode(p, b)
    ensures a == b
  {
  }

  // ---------------------------------------------------------------------
  // Hashes

  /** The raw digest of the encoded content, before the number is written
      into it. */
  function ContentDigest(p: Primitives, c: HeaderContent): Hash
  {
    p.digest(Encode(p, c))
  }

  /** The value Hash() returns: the content digest with bytes 0..3 replaced
      by the big-endian block number. */
  function BlockHash(p: Primitives, c: HeaderContent): (h: Hash)
    ensures Number(h) == HeaderNumber(c)
    ensures h[..4] == Uint32Bytes(HeaderNumber(c))
    ensures h[4..] == ContentDigest(p, c)[4..]
  {
    Uint32OfBytes(HeaderNumber(c));
    Uint32Bytes(HeaderNumber(c)) + ContentDigest(p, c)[4..]
  }

  /** The RLP item HashForSigning() digests: eight fields, leaving out
      TotalScore and Signature. */
  function SigningItem(c: HeaderContent): Item
  {
    List([Str(c.parentHash), Str(UintBytes(c.timestamp)), Str(UintBytes(c.gasLimit)),
          Str(UintBytes(c.gasUsed)), Str(c.beneficiary),
          Str(c.txsRoot), Str(c.stateRoot), Str(c.receiptsRoot)])
  }

  /** HashForSigning(): the digest of the signing item; never cached. */
  function HashForSigning(p: Primitives, c: HeaderContent): Hash
  {
    p.digest(p.encode(SigningItem(c)))
  }

  /** The two contents agree on every field the signer commits to. */
  predicate SameSigningFields(a: HeaderContent, b: HeaderContent)
  {
    && a.parentHash == b.parentHash
    && a.timestamp == b.timestamp
    && a.gasLimit == b.gasLimit
    && a.gasUsed == b.gasUsed
    && a.beneficiary == b.beneficiary
    && a.txsRoot == b.txsRoot
    && a.stateRoot == b.stateRoot
    && a.receiptsRoot == b.receiptsRoot
  }

  /** Headers that differ only in TotalScore or Signature have the same
      signing hash. */
  lemma SigningHashExcludesScoreAndSignature(p: Primitives, c: HeaderContent, score: nat, sig: seq<byte>)
    ensures HashForSigning(p, c.(totalScore := score, signature := sig)) == HashForSigning(p, c)
  {
  }

  /** Under the codec law, the signing encodings of two contents are equal
      exactly when the contents agree on the eight signed fields; in
      particular a different timestamp gives a different signing encoding. */
  lemma SigningEncodingSeparates(p: Primitives, a: HeaderContent, b: HeaderContent)
    requires CodecRoundTrips(p)
    ensures p.encode(SigningItem(a)) == p.encode(SigningItem(b)) <==> SameSigningFields(a, b)
  {
    if p.encode(SigningItem(a)) == p.encode(SigningItem(b)) {
      assert p.decode(p.encode(SigningItem(a))) == Success(SigningItem(a));
      assert p.decode(p.encode(SigningItem(b))) == Success(SigningItem(b));
      var fa, fb := SigningItem(a).items, SigningItem(b).items;
      assert fa[1] == fb[1] && fa[2] == fb[2] && fa[3] == fb[3];
      UintBytesSpec(a.timestamp);
      UintBytesSpec(b.timestamp);
      UintBytesSpec(a.gasLimit);
      UintBytesSpec(b.gasLimit);
      UintBytesSpec(a.gasUsed);
      UintBytesSpec(b.gasUsed);
    }
  }

  // ---------------------------------------------------------------------
  // Signer

  /** The result Signer() returns: "not signed" for an empty signature,
      otherwise what recovery over the signing hash gives. */
  function SignerOf(p: Primitives, c: HeaderContent): Result<Address, SignerError>
  {
    if |c.signature| == 0 then Failure(NotSigned)
    else
      match p.recover(HashForSigning(p, c), c.signature)
      case Success(a) => Success(a)
      case Failure(e) => Failure(RecoveryFailed(e))
  }

  /** Signer() fails with NotSigned exactly when the signature is empty;
      with a signature it returns precisely what recovery returns. */
  lemma SignerOfCases(p: Primitives, c: HeaderContent)
    ensures SignerOf(p, c) == Failure(NotSigned) <==> |c.signature| == 0
    ensures |c.signature| > 0 ==>
              (SignerOf(p, c).Success? <==> p.recover(HashForSigning(p, c), c.signature).Success?)
    ensures SignerOf(p, c).Success? ==>
              p.recover(HashForSigning(p, c), c.signature) == Success(SignerOf(p, c).value)
  {
  }

  /** Attaching a signature made over a header's signing hash yields a
      header whose signer is the account recovered from that signature:
      attaching it does not change the hash that was signed. */
  lemma SignatureRecoversSigner(p: Primitives, c: HeaderContent, sig: seq<byte>, account: Address)
    requires |sig| > 0
    requires p.recover(HashForSigning(p, c), sig) == Success(account)
    ensures SignerOf(p, c.(signature := sig)) == Success(account)
    ensures HashForSigning(p, c.(signature := sig)) == HashForSigning(p, c)
  {
    SigningHashExcludesScoreAndSignature(p, c, c.totalScore, sig);
  }

  /** Attaching a signature changes no accessor other than Signature and
      keeps the block number. */
  lemma WithSignatureKeepsFields(c: HeaderContent, sig: seq<byte>)
    ensures SameSigningFields(c.(signature := sig), c)
    ensures c.(signature := sig).totalScore == c.totalScore
    ensures c.(signature := sig).signature == sig
    ensures HeaderNumber(c.(signature := sig)) == HeaderNumber(c)
  {
  }

  // ---------------------------------------------------------------------
  // Chains of headers

  /** child names parent as its parent, and parent's hash is not the
      genesis sentinel. */
  predicate ChildOf(p: Primitives, parent: HeaderContent, child: HeaderContent)
  {
    child.parentHash == BlockHash(p, parent) && child.parentHash != ZeroHash
  }

  /** Linking a child to its parent by hash advances the number by one
      (mod 2^32), as long as the parent's hash is not the genesis sentinel. */
  lemma ChildNumber(p: Primitives, parent: HeaderContent, child: HeaderContent)
    requires ChildOf(p, parent, child)
    ensures HeaderNumber(child) == (HeaderNumber(parent) + 1) % TwoTo32
  {
  }

  /** A block hash can equal the genesis sentinel only for a block numbered
      0, so the second conjunct of ChildOf can fail only for such a parent. */
  lemma ZeroBlockHashOnlyAtZero(p: Primitives, c: HeaderContent)
    requires BlockHash(p, c) == ZeroHash
    ensures HeaderNumber(c) == 0
  {
    assert ZeroHash[..4] == [0, 0, 0, 0];
  }

  /** Each header of cs is the child of the one before it. */
  ghost predicate Linked(p: Primitives, cs: seq<HeaderContent>)
  {
    forall i :: 0 < i < |cs| ==> ChildOf(p, cs[i - 1], cs[i])
  }

  /** Every prefix of a linked chain is linked. */
  lemma LinkedPrefix(p: Primitives, cs: seq<HeaderContent>, k: nat)
    requires Linked(p, cs) && k <= |cs|
    ensures Linked(p, cs[..k])
  {
    forall i | 0 < i < k
      ensures ChildOf(p, cs[..k][i - 1], cs[..k][i])
    {
      assert cs[..k][i] == cs[i] && cs[..k][i - 1] == cs[i - 1];
    }
  }

  /** One more link adds one more to the number, modulo 2^32. */
  lemma ChainStep(p: Primitives, parent: HeaderContent, child: HeaderContent, base: nat, k: nat)
    requires ChildOf(p, parent, child)
    requires HeaderNumber(parent) == (base + k) % TwoTo32
    ensures HeaderNumber(child) == (base + k + 1) % TwoTo32
  {
    ChildNumber(p, parent, child);
    ModSuccessor(base + k);
  }

  /** Along a chain of any length, the number of the i-th header is i past
      the number of the first, modulo 2^32. */
  lemma {:induction false} ChainNumbers(p: Primitives, cs: seq<HeaderContent>)
    requires |cs| > 0 && Linked(p, cs)
    ensures forall i :: 0 <= i < |cs| ==> HeaderNumber(cs[i]) == (HeaderNumber(cs[0]) + i) % TwoTo32
  {
    if |cs| > 1 {
      var k := |cs| - 1;
      var front := cs[..k];
      LinkedPrefix(p, cs, k);
      ChainNumbers(p, front);
      var base := HeaderNumber(cs[0]);
      assert front[0] == cs[0];
      forall i | 0 <= i < k
        ensures HeaderNumber(cs[i]) == (base + i) % TwoTo32
      {
        assert front[i] == cs[i];
      }
      ChainStep(p, cs[k - 1], cs[k], base, k - 1);
    }
  }

  /** Adding one after reducing mod 2^32 is adding one before reducing. */
  lemma ModSuccessor(n: nat)
    ensures (n % TwoTo32 + 1) % TwoTo32 == (n + 1) % TwoTo32
  {
  }

  /** A chain that starts at a genesis header numbers its headers 0, 1, 2, ...
      (mod 2^32). */
  lemma GenesisChainNumbers(p: Primitives, cs: seq<HeaderContent>)
    requires |cs| > 0 && Linked(p, cs)
    requires cs[0].parentHash == ZeroHash
    ensures forall i :: 0 <= i < |cs| ==> HeaderNumber(cs[i]) == i % TwoTo32
  {
    ChainNumbers(p, cs);
  }

  // ---------------------------------------------------------------------
  // The Header object

  /** Header: the content and two cache slots that Hash() and Signer() fill.
      The content changes only when DecodeRLP overwrites the whole header. */
  class Header {
    var content: HeaderContent
    var hashCache: Option<Hash>
    var signerCache: Option<Address>

    /** A filled cache slot holds what would be computed from the content. */
    ghost predicate Valid(p: Primitives)
      reads this
    {
      && (hashCache.Some? ==> hashCache.value == BlockHash(p, content))
      && (signerCache.Some? ==> SignerOf(p, content) == Success(signerCache.value))
    }

    /** &Header{content: c}: a header with empty caches. */
    constructor (c: HeaderContent)
      ensures content == c && hashCache == None && signerCache == None
    {
      content := c;
      hashCache := None;
      signerCache := None;
    }

    /** Hash(): returns the cached hash if there is one; otherwise digests
        the encoded content into a 32-byte array, overwrites its first four
        bytes with the block number and caches the result. `computed` tells
        whether the digest was computed on this call. */
    method Hash(p: Primitives) returns (h: Externals.Hash, ghost computed: bool)
      requires Valid(p)
      modifies this`hashCache
      ensures Valid(p)
      ensures h == BlockHash(p, content)
      ensures hashCache == Some(h)
      ensures old(hashCache).Some? ==> h == old(hashCache).value
      ensures computed <==> old(hashCache) == None
    {
      if hashCache.Some? {
        return hashCache.value, false;
      }
      var digest := ContentDigest(p, content);
      var a := new byte[32];
      forall i | 0 <= i < 32 {
        a[i] := digest[i];
      }
      assert a[..] == digest;
      PutUint32(a, HeaderNumber(content));
      h := a[..];
      hashCache := Some(h);
      computed := true;
    }

    /** WithSignature(sig): a new header whose content is this one's with a
        copy of sig as Signature, and whose caches are empty. The receiver
        is not modified. */
    method WithSignature(sig: array<byte>) returns (h: Header)
      ensures fresh(h)
      ensures h.content == content.(signature := sig[..])
      ensures h.hashCache == None && h.signerCache == None
    {
      var copied := sig[..];
      h := new Header(content.(signature := copied));
    }

    /** Signer(): "not signed" for an empty signature, whatever the cache
        holds; else the cached signer if there is one; else recovers the
        signer from the signing hash, caching it only on success.
        `recovered` tells whether recovery ran on this call. */
    method Signer(p: Primitives) returns (r: Result<Address, SignerError>, ghost recovered: bool)
      requires Valid(p)
      modifies this`signerCache
      ensures Valid(p)
      ensures r == SignerOf(p, content)
      ensures signerCache == if r.Success? then Some(r.value) else old(signerCache)
      ensures recovered <==> |content.signature| > 0 && old(signerCache) == None
    {
      if |content.signature| == 0 {
        return Failure(NotSigned), false;
      }
      if signerCache.Some? {
        return Success(signerCache.value), false;
      }
      recovered := true;
      var signer := p.recover(HashForSigning(p, content), content.signature);
      if signer.Failure? {
        return Failure(RecoveryFailed(signer.error)), true;
      }
      signerCache := Some(signer.value);
      r := Success(signer.value);
    }

    /** DecodeRLP: on success the whole header is replaced by one holding
        the decoded content and empty caches; on failure it is untouched. */
    method DecodeRLP(p: Primitives, input: seq<byte>) returns (err: Option<DecodeError>)
      modifies this
      ensures Decode(p, input).Success? ==>
                err == None && content == Decode(p, input).value && hashCache == None && signerCache == None
      ensures Decode(p, input).Failure? ==>
                err == Some(Decode(p, input).error) && content == old(content)
                && hashCache == old(hashCache) && signerCache == old(signerCache)
      ensures err == None ==> Valid(p)
    {
      match Decode(p, input)
      case Failure(e) =>
        err := Some(e);
      case Success(c) =>
        content, hashCache, signerCache := c, None, None;
        err := None;
    }
  }

  // ---------------------------------------------------------------------
  // A client: the life of a genesis header

  /** Genesis content: zero parent hash, zero scores and gas, zero roots and
      no signature. */
  function GenesisContent(timestamp: uint64, beneficiary: Address): (c: HeaderContent)
    ensures HeaderNumber(c) == 0 && |c.signature| == 0
  {
    HeaderContent(ZeroHash, timestamp, 0, 0, 0, beneficiary, ZeroHash, ZeroHash, ZeroHash, [])
  }

  /** Builds a genesis header, hashes it, attaches sig and asks for the
      signer. The hash starts with four zero bytes, the signed header keeps
      number 0, and the signer is the account recovered from sig over the
      unsigned header's signing hash. */
  method SignGenesis(p: Primitives, timestamp: uint64, beneficiary: Address, sig: array<byte>)
    returns (hash: Externals.Hash, signedNumber: uint32, signer: Result<Address, SignerError>)
    ensures hash[..4] == [0, 0, 0, 0]
    ensures Number(hash) == 0 && signedNumber == 0
    ensures sig.Length == 0 ==> signer == Failure(NotSigned)
    ensures sig.Length > 0 ==>
              var recovered := p.recover(HashForSigning(p, GenesisContent(timestamp, beneficiary)), sig[..]);
              recovered.Success? ==> signer == Success(recovered.value)
    ensures signer == SignerOf(p, GenesisContent(timestamp, beneficiary).(signature := sig[..]))
  {
    var genesis := new Header(GenesisContent(timestamp, beneficiary));
    ghost var computed, recovered;
    hash, computed := genesis.Hash(p);
    var signed := genesis.WithSignature(sig);
    signedNumber := HeaderNumber(signed.content);
    signer, recovered := signed.Signer(p);
    SigningHashExcludesScoreAndSignature(p, genesis.content, 0, sig[..]);
  }
}
