/** The foreign building blocks the miniLock engine calls: libsodium's secretbox and box,
    BLAKE2s, Base58, Base64, UTF-8 and ObjectMapper's JSON mapping. None of them is modelled;
    each is a function-valued field of `Primitives`, and the `...Lawful` predicates list the
    only facts about them that the model relies on (output lengths and round trips). */
module Primitives {
  import opened Wrappers
  import opened Bytes
  import Text

  /** The JSON shape of a `Header.FileInfo`: the Base64 file key, file nonce and ciphertext hash
      under the keys `fileKey`, `fileNonce` and `fileHash`. */
  datatype FileInfoRecord = FileInfoRecord(key: string, nonce: string, hash: string)

  /** The JSON shape of a `Header.DecryptInfo`: the Base58 sender and recipient ids and the
      Base64 boxed file info under `senderID`, `recipientID` and `fileInfo`. */
  datatype DecryptInfoRecord = DecryptInfoRecord(senderId: string, recipientId: string, fileInfo: string)

  /** The JSON shape of a `Header`: `version`, `ephemeral` and the `decryptInfo` dictionary. */
  datatype HeaderRecord = HeaderRecord(version: int, ephemeral: string, decryptInfo: map<string, string>)

  /** The JSON shape of a `Friend`: `name` and the Base58 `id`. */
  datatype FriendRecord = FriendRecord(name: string, id: string)

  /** The characters Base58 uses (`b58Digits` of the app). */
  predicate IsBase58Digit(c: char) {
    || '1' <= c <= '9'
    || 'A' <= c <= 'H' || 'J' <= c <= 'N' || 'P' <= c <= 'Z'
    || 'a' <= c <= 'k' || 'm' <= c <= 'z'
  }

  predicate IsBase58(s: string) {
    forall i :: 0 <= i < |s| ==> IsBase58Digit(s[i])
  }

  /** `(message, nonce, key)` arguments and results are byte strings; a failed open or a failed
      decode is `None`. `boxSeal` and `boxOpen` take `(message, nonce, theirPublicKey, mySecretKey)`. */
  datatype Primitives = Primitives(
    secretSeal: (Bytes, Bytes, Bytes) -> Bytes,
    secretOpen: (Bytes, Bytes, Bytes) -> Option<Bytes>,
    boxSeal: (Bytes, Bytes, Bytes, Bytes) -> Option<Bytes>,
    boxOpen: (Bytes, Bytes, Bytes, Bytes) -> Option<Bytes>,
    publicKeyOf: Bytes -> Bytes,
    checksum: Bytes -> uint8,
    hash: Bytes -> Bytes,
    base58Encode: Bytes -> string,
    base58Decode: string -> Option<Bytes>,
    base64Encode: Bytes -> string,
    base64Decode: string -> Option<Bytes>,
    utf8Encode: string -> Bytes,
    utf8Decode: Bytes -> Option<string>,
    fileInfoToJson: FileInfoRecord -> Option<string>,
    fileInfoFromJson: string -> Option<FileInfoRecord>,
    decryptInfoToJson: DecryptInfoRecord -> Option<string>,
    decryptInfoFromJson: string -> Option<DecryptInfoRecord>,
    headerToJson: HeaderRecord -> Option<string>,
    headerFromJson: string -> Option<HeaderRecord>,
    friendsToJson: seq<FriendRecord> -> Option<string>,
    friendsFromJson: string -> Option<seq<FriendRecord>>,
    entryOrder: map<string, string> -> seq<(string, string)>
  ) {

    /** `crypto_secretbox_easy` with a 24-byte nonce and a 32-byte key: 16 bytes of MAC are added,
        and opening with the same nonce and key gives the message back. */
    ghost predicate SecretBoxLawful() {
      && (forall m, n, k :: |secretSeal(m, n, k)| == |m| + 16)
      && (forall m, n, k :: |n| == 24 && |k| == 32 ==> secretOpen(secretSeal(m, n, k), n, k) == Some(m))
      && (forall c, n, k :: secretOpen(c, n, k).Some? ==> |secretOpen(c, n, k).value| + 16 == |c|)
    }

    /** `crypto_box_easy` between two 32-byte secret keys `a` and `b`: what `a` seals for `b`'s
        public key, `b` opens with `a`'s public key. Sealing may fail; a success adds 16 bytes. */
    ghost predicate BoxLawful() {
      && (forall sk :: |sk| == 32 ==> |publicKeyOf(sk)| == 32)
      && (forall m, n, pk, sk :: boxSeal(m, n, pk, sk).Some? ==> |boxSeal(m, n, pk, sk).value| == |m| + 16)
      && (forall m, n, a, b {:trigger boxOpen(boxSeal(m, n, publicKeyOf(b), a).value, n, publicKeyOf(a), b)} ::
            |n| == 24 && |a| == 32 && |b| == 32 && boxSeal(m, n, publicKeyOf(b), a).Some? ==>
              boxOpen(boxSeal(m, n, publicKeyOf(b), a).value, n, publicKeyOf(a), b) == Some(m))
      && (forall c, n, pk, sk :: boxOpen(c, n, pk, sk).Some? ==> |boxOpen(c, n, pk, sk).value| + 16 == |c|)
    }

    /** BLAKE2s with a 32-byte output. */
    ghost predicate HashLawful() {
      forall b :: |hash(b)| == 32
    }

    /** Base58 of a non-empty byte string decodes back to it, and every string that decodes to
        non-empty bytes is a non-empty string of Base58 digits. */
    ghost predicate Base58Lawful() {
      && (forall b :: |b| > 0 ==> base58Decode(base58Encode(b)) == Some(b))
      && (forall s :: base58Decode(s).Some? && |base58Decode(s).value| > 0 ==> |s| > 0 && IsBase58(s))
    }

    /** Base64 and UTF-8 decode what they encode; UTF-8 has a zero byte only for a NUL character
        and encodes a non-empty string as non-empty bytes. */
    ghost predicate TextCodingLawful() {
      && (forall b :: base64Decode(base64Encode(b)) == Some(b))
      && (forall t :: utf8Decode(utf8Encode(t)) == Some(t))
      && (forall t :: (forall i :: 0 <= i < |t| ==> t[i] != '\0') ==> 0 !in utf8Encode(t))
      && (forall t :: |t| > 0 ==> |utf8Encode(t)| > 0)
    }

    /** ObjectMapper writes each record as a JSON object and reads back what it writes. The
        texts of a `FileInfo` and of a `Header` are read back after `toJSONStringWithoutEscapes`
        has turned every `\/` into `/`, which keeps every string value (see
        `Text.StripSlashEscapesKeepsValue`). */
    ghost predicate JsonLawful() {
      && (forall r :: fileInfoToJson(r).Some? ==> JsonObjectText(fileInfoToJson(r).value))
      && (forall r :: decryptInfoToJson(r).Some? ==> JsonObjectText(decryptInfoToJson(r).value))
      && (forall r :: headerToJson(r).Some? ==> JsonObjectText(headerToJson(r).value))
      && (forall r :: fileInfoToJson(r).Some? ==>
            fileInfoFromJson(Text.StripSlashEscapes(fileInfoToJson(r).value)) == Some(r))
      && (forall r :: decryptInfoToJson(r).Some? ==> decryptInfoFromJson(decryptInfoToJson(r).value) == Some(r))
      && (forall r :: headerToJson(r).Some? ==>
            headerFromJson(Text.StripSlashEscapes(headerToJson(r).value)) == Some(r))
    }

    /** ObjectMapper reads back the array of friend records it writes. */
    ghost predicate FriendsJsonLawful() {
      forall rs :: friendsToJson(rs).Some? ==> friendsFromJson(friendsToJson(rs).value) == Some(rs)
    }

    /** A dictionary is iterated in an order that visits each of its pairs once. */
    ghost predicate DictionaryOrderLawful() {
      forall d :: EntryOrderLawful(d, entryOrder(d))
    }

    /** Authenticated public-key encryption: a box sealed for one public key does not open with a
        secret key whose public key is a different one. Only the multi-recipient round trip uses it. */
    ghost predicate BoxAuthentic() {
      forall m, n, pk, a, b ::
        pk != publicKeyOf(b) && boxSeal(m, n, pk, a).Some? ==>
          boxOpen(boxSeal(m, n, pk, a).value, n, publicKeyOf(a), b).None?
    }

    /** The laws the block stream needs. */
    ghost predicate StreamLawful() {
      SecretBoxLawful() && HashLawful()
    }
  }

  /** A JSON object's text starts with `{`. */
  predicate JsonObjectText(t: string) {
    |t| > 0 && t[0] == '{'
  }

  /** Iterating `d` visits the pairs of `entries`: each is a key of `d` with its value, every
      key is visited, and none twice. */
  ghost predicate EntryOrderLawful(d: map<string, string>, entries: seq<(string, string)>) {
    && (forall i :: 0 <= i < |entries| ==> entries[i].0 in d && d[entries[i].0] == entries[i].1)
    && (forall k :: k in d ==> exists i :: 0 <= i < |entries| && entries[i].0 == k)
    && (forall i, j :: 0 <= i < j < |entries| ==> entries[i].0 != entries[j].0)
  }
}
