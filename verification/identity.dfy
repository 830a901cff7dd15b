/** miniLock ids: a 32-byte public key followed by a one-byte BLAKE2s checksum of it, shown
    to people as the Base58 text of those 33 bytes. */
module Identity {
  import opened Wrappers
  import opened Bytes
  import opened FileFormat
  import opened Primitives

  /** The fields of a `MiniLock.Id`: the binary bytes and the Base58 text they were made from or
      encode to. */
  datatype IdFields = Id(binary: Bytes, description: string)

  /** `MiniLock.Id`: both initializers make exactly 33 binary bytes, key then checksum. */
  type Id = id: IdFields | |id.binary| == BoxPublicKeyBytes + PublicKeyCheckSumBytes
    witness Id(Zeros(BoxPublicKeyBytes + PublicKeyCheckSumBytes), "")

  /** A secret key with the id of its public key (`MiniLock.KeyPair`). */
  datatype KeyPair = KeyPair(privateKey: Bytes, publicId: Id)

  /** The checksum byte at the end of `b` is the checksum of the 32-byte key before it. */
  predicate ChecksumHolds(p: Primitives, b: Bytes) {
    |b| == BoxPublicKeyBytes + PublicKeyCheckSumBytes && b[BoxPublicKeyBytes] == p.checksum(b[..BoxPublicKeyBytes])
  }

  /** An id as both constructors leave it: its checksum holds and its text decodes to its bytes. */
  predicate Valid(p: Primitives, id: Id) {
    ChecksumHolds(p, id.binary) && p.base58Decode(id.description) == Some(id.binary)
  }

  /** `init?(fromBinaryPublicKey:)`: only a 32-byte key makes an id. */
  function FromBinaryPublicKey(p: Primitives, key: Bytes): (r: Option<Id>)
    ensures r.Some? <==> |key| == BoxPublicKeyBytes
    ensures r.Some? ==> r.value.binary[..BoxPublicKeyBytes] == key
    ensures r.Some? ==> ChecksumHolds(p, r.value.binary)
  {
    if |key| != BoxPublicKeyBytes then None
    else
      var binary := key + [p.checksum(key)];
      assert binary[..BoxPublicKeyBytes] == key;
      Some(Id(binary, p.base58Encode(binary)))
  }

  /** `init?(fromBase58String:)`: the text must decode to 33 bytes whose checksum holds; the id
      keeps the text it was given. */
  function FromBase58String(p: Primitives, text: string): (r: Option<Id>)
    ensures r.Some? <==> p.base58Decode(text).Some? && ChecksumHolds(p, p.base58Decode(text).value)
    ensures r.Some? ==> r.value.description == text && Valid(p, r.value)
  {
    match p.base58Decode(text)
    case None => None
    case Some(binary) =>
      if |binary| != BoxPublicKeyBytes + PublicKeyCheckSumBytes then None
      else if binary[BoxPublicKeyBytes] != p.checksum(binary[..BoxPublicKeyBytes]) then None
      else Some(Id(binary, text))
  }

  /** `==` on ids compares the binary bytes only. */
  predicate SameId(a: Id, b: Id) {
    a.binary == b.binary
  }

  /** The 32 bytes the C box functions read from `id.binary`: the key without its checksum. */
  function BoxKey(id: Id): (r: Bytes)
    ensures |r| == BoxPublicKeyBytes
  {
    id.binary[..BoxPublicKeyBytes]
  }

  /** A key pair whose id belongs to its secret key. */
  ghost predicate Consistent(p: Primitives, kp: KeyPair) {
    && |kp.privateKey| == BoxSecretKeyBytes
    && Valid(p, kp.publicId)
    && BoxKey(kp.publicId) == p.publicKeyOf(kp.privateKey)
  }

  /** An id made from a key is valid, and its text names the same key. */
  lemma FromBinaryPublicKeyValid(p: Primitives, key: Bytes)
    requires p.Base58Lawful() && |key| == BoxPublicKeyBytes
    ensures FromBinaryPublicKey(p, key).Some?
    ensures Valid(p, FromBinaryPublicKey(p, key).value)
    ensures FromBase58String(p, FromBinaryPublicKey(p, key).value.description) == FromBinaryPublicKey(p, key)
  {
    var id := FromBinaryPublicKey(p, key).value;
    assert p.base58Decode(p.base58Encode(id.binary)) == Some(id.binary);
  }

  /** Reading a valid id's text gives back the same id: ids survive being written out as text. */
  lemma ReadDescription(p: Primitives, id: Id)
    requires Valid(p, id)
    ensures FromBase58String(p, id.description) == Some(id)
  {
  }

  /** The text of a valid id is a non-empty string of Base58 digits. */
  lemma DescriptionIsBase58(p: Primitives, id: Id)
    requires p.Base58Lawful() && Valid(p, id)
    ensures |id.description| > 0 && IsBase58(id.description)
  {
    assert p.base58Decode(id.description).Some? && |p.base58Decode(id.description).value| > 0;
  }

  /** Two valid ids with the same text are the same id, and valid ids are the same id exactly
      when they name the same key. */
  lemma SameIdByKey(p: Primitives, a: Id, b: Id)
    requires Valid(p, a) && Valid(p, b)
    ensures SameId(a, b) <==> BoxKey(a) == BoxKey(b)
    ensures a.description == b.description ==> SameId(a, b)
  {
    if BoxKey(a) == BoxKey(b) {
      assert a.binary == BoxKey(a) + [a.binary[32]];
      assert b.binary == BoxKey(b) + [b.binary[32]];
    }
  }
}
