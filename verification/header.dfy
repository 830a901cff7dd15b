/** The miniLock header: the file key, nonce and hash (`FileInfo`) boxed once per recipient by the
    sender, each wrapped with the recipient's id in a `DecryptInfo` that is boxed again with a
    one-time ephemeral key and filed under its Base64 nonce. */
module Header {
  import opened Wrappers
  import opened Bytes
  import opened FileFormat
  import opened Primitives
  import opened Identity
  import Text

  /** `Header.DecryptInfo`: who sent the file, whom this entry is for, the Base64 boxed file
      info, and the nonce of the entry it was opened from (set only after opening). */
  datatype DecryptInfo = DecryptInfo(senderId: Id, recipientId: Id, fileInfo: string, nonce: Option<Bytes>)

  /** `FileInfo(key:nonce:hash:)`: the three byte strings in Base64. */
  function MakeFileInfo(p: Primitives, key: Bytes, nonce: Bytes, hash: Bytes): (r: FileInfoRecord)
    ensures p.TextCodingLawful() ==>
      && p.base64Decode(r.key) == Some(key)
      && p.base64Decode(r.nonce) == Some(nonce)
      && p.base64Decode(r.hash) == Some(hash)
  {
    FileInfoRecord(p.base64Encode(key), p.base64Encode(nonce), p.base64Encode(hash))
  }

  /** The key under which an entry is filed: the Base64 text of its nonce. */
  function NonceKey(p: Primitives, nonce: Bytes): string {
    p.base64Encode(nonce)
  }

  /** The file info boxed for one recipient with the sender's secret key, in Base64. */
  function SealFileInfo(p: Primitives, plain: Bytes, senderKey: Bytes, recipient: Id, nonce: Bytes): (r: Option<string>)
    ensures r.Some? <==> p.boxSeal(plain, nonce, BoxKey(recipient), senderKey).Some?
    ensures r.Some? && p.TextCodingLawful() ==> p.base64Decode(r.value) == p.boxSeal(plain, nonce, BoxKey(recipient), senderKey)
  {
    match p.boxSeal(plain, nonce, BoxKey(recipient), senderKey)
    case None => None
    case Some(c) => Some(p.base64Encode(c))
  }

  /** The file info boxed for each recipient (the first loop of
      `init?(sender:recipients:fileInfo:)`); `None` as soon as one box fails. */
  function SealFileInfos(p: Primitives, plain: Bytes, senderKey: Bytes, recipients: seq<Id>, nonces: seq<Bytes>)
    : (r: Option<seq<string>>)
    requires |nonces| == |recipients|
    ensures r.Some? <==> forall i :: 0 <= i < |recipients| ==> SealFileInfo(p, plain, senderKey, recipients[i], nonces[i]).Some?
    ensures r.Some? ==> |r.value| == |recipients|
    ensures r.Some? ==> forall i :: 0 <= i < |recipients| ==> r.value[i] == SealFileInfo(p, plain, senderKey, recipients[i], nonces[i]).value
  {
    if |recipients| == 0 then Some([])
    else match SealFileInfo(p, plain, senderKey, recipients[0], nonces[0])
      case None => None
      case Some(c) =>
        match SealFileInfos(p, plain, senderKey, recipients[1..], nonces[1..])
        case None => None
        case Some(rest) => Some([c] + rest)
  }

  /** One recipient's entry value: the JSON of its `DecryptInfo` (written by `toJSONString`,
      so with its escapes), boxed with the ephemeral secret key, in Base64. */
  function SealEntry(p: Primitives, senderId: Id, recipient: Id, boxedFileInfo: string, nonce: Bytes, ephemeralKey: Bytes)
    : (r: Option<string>)
    ensures var json := p.decryptInfoToJson(DecryptInfoRecord(senderId.description, recipient.description, boxedFileInfo));
      r.Some? <==> json.Some? && p.boxSeal(p.utf8Encode(json.value), nonce, BoxKey(recipient), ephemeralKey).Some?
  {
    match p.decryptInfoToJson(DecryptInfoRecord(senderId.description, recipient.description, boxedFileInfo))
    case None => None
    case Some(json) =>
      match p.boxSeal(p.utf8Encode(json), nonce, BoxKey(recipient), ephemeralKey)
      case None => None
      case Some(c) => Some(p.base64Encode(c))
  }

  /** A sealed entry is the Base64 text of the box, so the recipient's side reads the box back. */
  lemma SealEntryDecodes(p: Primitives, senderId: Id, recipient: Id, boxedFileInfo: string, nonce: Bytes,
                         ephemeralKey: Bytes)
    requires p.TextCodingLawful()
    requires SealEntry(p, senderId, recipient, boxedFileInfo, nonce, ephemeralKey).Some?
    ensures var json := p.decryptInfoToJson(DecryptInfoRecord(senderId.description, recipient.description, boxedFileInfo));
      p.base64Decode(SealEntry(p, senderId, recipient, boxedFileInfo, nonce, ephemeralKey).value)
        == p.boxSeal(p.utf8Encode(json.value), nonce, BoxKey(recipient), ephemeralKey)
  {
  }

  /** The `decryptInfo` dictionary for the first `n` recipients (the second loop): each entry
      is stored under its nonce's key, so a later recipient with the same nonce replaces an
      earlier one. */
  function SealEntries(p: Primitives, senderId: Id, recipients: seq<Id>, boxed: seq<string>, nonces: seq<Bytes>,
                       ephemeralKey: Bytes, n: nat): (r: Option<map<string, string>>)
    requires |nonces| == |recipients| == |boxed| && n <= |recipients|
    ensures r.Some? <==> forall i :: 0 <= i < n ==> SealEntry(p, senderId, recipients[i], boxed[i], nonces[i], ephemeralKey).Some?
  {
    if n == 0 then Some(map[])
    else match SealEntries(p, senderId, recipients, boxed, nonces, ephemeralKey, n - 1)
      case None => None
      case Some(m) =>
        match SealEntry(p, senderId, recipients[n - 1], boxed[n - 1], nonces[n - 1], ephemeralKey)
        case None => None
        case Some(v) => Some(m[NonceKey(p, nonces[n - 1]) := v])
  }

  /** The dictionary has a key for every recipient's nonce and no other. */
  lemma {:induction false} SealEntriesKeys(p: Primitives, senderId: Id, recipients: seq<Id>, boxed: seq<string>,
                                           nonces: seq<Bytes>, ephemeralKey: Bytes, n: nat)
    requires |nonces| == |recipients| == |boxed| && n <= |recipients|
    requires SealEntries(p, senderId, recipients, boxed, nonces, ephemeralKey, n).Some?
    ensures var d := SealEntries(p, senderId, recipients, boxed, nonces, ephemeralKey, n).value;
      forall k :: k in d <==> exists i :: 0 <= i < n && NonceKey(p, nonces[i]) == k
  {
    if n > 0 {
      SealEntriesKeys(p, senderId, recipients, boxed, nonces, ephemeralKey, n - 1);
    }
  }

  /** Each value of the dictionary is the entry of a recipient whose nonce is its key. */
  lemma {:induction false} SealEntriesValues(p: Primitives, senderId: Id, recipients: seq<Id>, boxed: seq<string>,
                                             nonces: seq<Bytes>, ephemeralKey: Bytes, n: nat, k: string)
    requires |nonces| == |recipients| == |boxed| && n <= |recipients|
    requires SealEntries(p, senderId, recipients, boxed, nonces, ephemeralKey, n).Some?
    requires k in SealEntries(p, senderId, recipients, boxed, nonces, ephemeralKey, n).value
    ensures exists i :: (0 <= i < n && NonceKey(p, nonces[i]) == k
      && SealEntries(p, senderId, recipients, boxed, nonces, ephemeralKey, n).value[k]
         == SealEntry(p, senderId, recipients[i], boxed[i], nonces[i], ephemeralKey).value)
  {
    var d := SealEntries(p, senderId, recipients, boxed, nonces, ephemeralKey, n).value;
    var m := SealEntries(p, senderId, recipients, boxed, nonces, ephemeralKey, n - 1).value;
    if k != NonceKey(p, nonces[n - 1]) {
      SealEntriesValues(p, senderId, recipients, boxed, nonces, ephemeralKey, n - 1, k);
      assert d[k] == m[k];
    } else {
      assert d[k] == SealEntry(p, senderId, recipients[n - 1], boxed[n - 1], nonces[n - 1], ephemeralKey).value;
    }
  }

  /** Recipient `i`'s entry survives when no later recipient's nonce has the same key. */
  lemma {:induction false} SealEntriesLastWriter(p: Primitives, senderId: Id, recipients: seq<Id>, boxed: seq<string>,
                                                 nonces: seq<Bytes>, ephemeralKey: Bytes, n: nat, i: nat)
    requires |nonces| == |recipients| == |boxed| && i < n <= |recipients|
    requires SealEntries(p, senderId, recipients, boxed, nonces, ephemeralKey, n).Some?
    requires forall j :: i < j < n ==> NonceKey(p, nonces[j]) != NonceKey(p, nonces[i])
    ensures NonceKey(p, nonces[i]) in SealEntries(p, senderId, recipients, boxed, nonces, ephemeralKey, n).value
    ensures SealEntries(p, senderId, recipients, boxed, nonces, ephemeralKey, n).value[NonceKey(p, nonces[i])]
      == SealEntry(p, senderId, recipients[i], boxed[i], nonces[i], ephemeralKey).value
  {
    if i < n - 1 {
      SealEntriesLastWriter(p, senderId, recipients, boxed, nonces, ephemeralKey, n - 1, i);
    }
  }

  /** `init?(sender:recipients:fileInfo:)`, with the randomness it draws as parameters: one
      nonce per recipient and the ephemeral secret key (whose public key goes in the header).
      `None` for an empty recipient list or when any JSON writing or box fails. */
  function Build(p: Primitives, sender: KeyPair, recipients: seq<Id>, fileInfo: FileInfoRecord,
                 nonces: seq<Bytes>, ephemeralKey: Bytes): (r: Option<HeaderRecord>)
    requires |nonces| == |recipients|
    ensures |recipients| == 0 ==> r.None?
    ensures r.Some? ==> r.value.version == Version
    ensures r.Some? ==> r.value.ephemeral == p.base64Encode(p.publicKeyOf(ephemeralKey))
    ensures r.Some? ==> forall i :: 0 <= i < |recipients| ==> NonceKey(p, nonces[i]) in r.value.decryptInfo
    ensures r.Some? ==> forall k :: k in r.value.decryptInfo ==> exists i :: 0 <= i < |recipients| && NonceKey(p, nonces[i]) == k
  {
    if |recipients| == 0 then None
    else match p.fileInfoToJson(fileInfo)
      case None => None
      case Some(json) =>
        match SealFileInfos(p, FileInfoPlain(p, fileInfo), sender.privateKey, recipients, nonces)
        case None => None
        case Some(boxed) =>
          match SealEntries(p, sender.publicId, recipients, boxed, nonces, ephemeralKey, |recipients|)
          case None => None
          case Some(entries) =>
            SealEntriesKeys(p, sender.publicId, recipients, boxed, nonces, ephemeralKey, |recipients|);
            Some(HeaderRecord(Version, p.base64Encode(p.publicKeyOf(ephemeralKey)), entries))
  }

  /** `DecryptInfo.init(map:)`: both ids must be valid Base58 ids, else `headerParsingError`,
      which the caller's `try?` turns into `None`. */
  function ParseDecryptInfo(p: Primitives, json: string): (r: Option<DecryptInfo>)
    ensures r.Some? <==> (p.decryptInfoFromJson(json).Some?
      && FromBase58String(p, p.decryptInfoFromJson(json).value.senderId).Some?
      && FromBase58String(p, p.decryptInfoFromJson(json).value.recipientId).Some?)
    ensures r.Some? ==> Valid(p, r.value.senderId) && Valid(p, r.value.recipientId) && r.value.nonce.None?
    ensures r.Some? ==> var record := p.decryptInfoFromJson(json).value;
      r.value.senderId.description == record.senderId && r.value.recipientId.description == record.recipientId
      && r.value.fileInfo == record.fileInfo
  {
    match p.decryptInfoFromJson(json)
    case None => None
    case Some(record) =>
      match FromBase58String(p, record.senderId)
      case None => None
      case Some(senderId) =>
        match FromBase58String(p, record.recipientId)
        case None => None
        case Some(recipientId) => Some(DecryptInfo(senderId, recipientId, record.fileInfo, None))
  }

  /** One round of `decryptDecryptInfo`'s loop: the entry is skipped unless its nonce decodes to
      24 bytes and its value to more than 16; then it must open with the ephemeral public key
      and the recipient's secret key, be UTF-8 and parse. The nonce is attached to the result. */
  function OpenEntry(p: Primitives, ephemeralPublic: Bytes, kp: KeyPair, nonceText: string, cipherText: string)
    : (r: Option<DecryptInfo>)
    ensures r.Some? ==> p.base64Decode(nonceText).Some? && r.value.nonce == p.base64Decode(nonceText)
    ensures r.Some? ==> |r.value.nonce.value| == BoxNonceBytes
    ensures r.Some? ==> p.base64Decode(cipherText).Some? && |p.base64Decode(cipherText).value| > BoxMacBytes
    ensures r.Some? ==> p.boxOpen(p.base64Decode(cipherText).value, r.value.nonce.value, ephemeralPublic, kp.privateKey).Some?
  {
    var nonce := p.base64Decode(nonceText).GetOr([]);
    var boxed := p.base64Decode(cipherText).GetOr([]);
    if |nonce| != BoxNonceBytes || |boxed| <= BoxMacBytes then None
    else match p.boxOpen(boxed, nonce, ephemeralPublic, kp.privateKey)
      case None => None
      case Some(plain) =>
        match p.utf8Decode(plain)
        case None => None
        case Some(json) =>
          match ParseDecryptInfo(p, json)
          case None => None
          case Some(info) => Some(info.(nonce := Some(nonce)))
  }

  /** The loop of `decryptDecryptInfo` over the entries in iteration order: the first entry that
      opens wins. */
  function FirstOpened(p: Primitives, ephemeralPublic: Bytes, kp: KeyPair, entries: seq<(string, string)>)
    : (r: Option<DecryptInfo>)
    ensures r.None? <==> forall i :: 0 <= i < |entries| ==> OpenEntry(p, ephemeralPublic, kp, entries[i].0, entries[i].1).None?
    ensures r.Some? ==> exists i :: (0 <= i < |entries| && OpenEntry(p, ephemeralPublic, kp, entries[i].0, entries[i].1) == r
      && forall j :: 0 <= j < i ==> OpenEntry(p, ephemeralPublic, kp, entries[j].0, entries[j].1).None?)
  {
    if |entries| == 0 then None
    else match OpenEntry(p, ephemeralPublic, kp, entries[0].0, entries[0].1)
      case Some(info) => Some(info)
      case None =>
        var r := FirstOpened(p, ephemeralPublic, kp, entries[1..]);
        FirstOpenedShift(p, ephemeralPublic, kp, entries, r);
        r
  }

  /** A result that is first in the entries after the front one is first in all of them when the
      front entry does not open. */
  lemma FirstOpenedShift(p: Primitives, ephemeralPublic: Bytes, kp: KeyPair, entries: seq<(string, string)>,
                         r: Option<DecryptInfo>)
    requires |entries| > 0 && OpenEntry(p, ephemeralPublic, kp, entries[0].0, entries[0].1).None?
    requires r.None? <==> forall i :: 0 <= i < |entries[1..]| ==> OpenEntry(p, ephemeralPublic, kp, entries[1..][i].0, entries[1..][i].1).None?
    requires r.Some? ==> exists i :: (0 <= i < |entries[1..]| && OpenEntry(p, ephemeralPublic, kp, entries[1..][i].0, entries[1..][i].1) == r
      && forall j :: 0 <= j < i ==> OpenEntry(p, ephemeralPublic, kp, entries[1..][j].0, entries[1..][j].1).None?)
    ensures r.None? <==> forall i :: 0 <= i < |entries| ==> OpenEntry(p, ephemeralPublic, kp, entries[i].0, entries[i].1).None?
    ensures r.Some? ==> exists i :: (0 <= i < |entries| && OpenEntry(p, ephemeralPublic, kp, entries[i].0, entries[i].1) == r
      && forall j :: 0 <= j < i ==> OpenEntry(p, ephemeralPublic, kp, entries[j].0, entries[j].1).None?)
  {
    var rest := entries[1..];
    if r.Some? {
      var i :| 0 <= i < |rest| && OpenEntry(p, ephemeralPublic, kp, rest[i].0, rest[i].1) == r
        && forall j :: 0 <= j < i ==> OpenEntry(p, ephemeralPublic, kp, rest[j].0, rest[j].1).None?;
      assert entries[i + 1] == rest[i];
      forall j | 0 <= j < i + 1
        ensures OpenEntry(p, ephemeralPublic, kp, entries[j].0, entries[j].1).None?
      {
        if j > 0 {
          assert entries[j] == rest[j - 1];
        }
      }
    } else {
      forall i | 0 <= i < |entries|
        ensures OpenEntry(p, ephemeralPublic, kp, entries[i].0, entries[i].1).None?
      {
        if i > 0 {
          assert entries[i] == rest[i - 1];
        }
      }
    }
  }

  /** `decryptDecryptInfo(usingRecipientKeys:)`: `None` unless the header's ephemeral key decodes
      to 32 bytes; otherwise the first entry of the dictionary that opens for the key pair. */
  function DecryptDecryptInfo(p: Primitives, h: HeaderRecord, kp: KeyPair): (r: Option<DecryptInfo>)
    ensures r.Some? ==> p.base64Decode(h.ephemeral).Some? && |p.base64Decode(h.ephemeral).value| == BoxPublicKeyBytes
    ensures p.base64Decode(h.ephemeral).None? || |p.base64Decode(h.ephemeral).value| != BoxPublicKeyBytes ==> r.None?
    ensures p.base64Decode(h.ephemeral).Some? && |p.base64Decode(h.ephemeral).value| == BoxPublicKeyBytes ==>
      (r.None? <==> forall i :: 0 <= i < |p.entryOrder(h.decryptInfo)| ==>
        OpenEntry(p, p.base64Decode(h.ephemeral).value, kp, p.entryOrder(h.decryptInfo)[i].0, p.entryOrder(h.decryptInfo)[i].1).None?)
    ensures r.Some? ==> exists i :: (0 <= i < |p.entryOrder(h.decryptInfo)|
      && OpenEntry(p, p.base64Decode(h.ephemeral).value, kp, p.entryOrder(h.decryptInfo)[i].0, p.entryOrder(h.decryptInfo)[i].1) == r
      && forall j :: 0 <= j < i ==>
        OpenEntry(p, p.base64Decode(h.ephemeral).value, kp, p.entryOrder(h.decryptInfo)[j].0, p.entryOrder(h.decryptInfo)[j].1).None?)
  {
    var ephemeralPublic := p.base64Decode(h.ephemeral).GetOr([]);
    if |ephemeralPublic| != BoxPublicKeyBytes then None
    else FirstOpened(p, ephemeralPublic, kp, p.entryOrder(h.decryptInfo))
  }

  /** `decryptFileInfo(usingRecipientKeys:)`: the entry must carry a 24-byte nonce and be
      addressed to the key pair's id, and the file info must open with the sender's public key
      and the recipient's secret key, be UTF-8 and parse. */
  function DecryptFileInfo(p: Primitives, info: DecryptInfo, kp: KeyPair): (r: Option<FileInfoRecord>)
    ensures r.Some? ==> info.nonce.Some? && |info.nonce.value| == BoxNonceBytes
    ensures r.Some? ==> SameId(kp.publicId, info.recipientId)
    ensures r.Some? ==> (p.base64Decode(info.fileInfo).Some? && |p.base64Decode(info.fileInfo).value| > BoxMacBytes
      && p.boxOpen(p.base64Decode(info.fileInfo).value, info.nonce.value, BoxKey(info.senderId), kp.privateKey).Some?)
  {
    if info.nonce.None? || |info.nonce.value| != BoxNonceBytes || !SameId(kp.publicId, info.recipientId) then None
    else
      var boxed := p.base64Decode(info.fileInfo).GetOr([]);
      if |boxed| <= BoxMacBytes then None
      else match p.boxOpen(boxed, info.nonce.value, BoxKey(info.senderId), kp.privateKey)
        case None => None
        case Some(plain) =>
          match p.utf8Decode(plain)
          case None => None
          case Some(json) => p.fileInfoFromJson(json)
  }

  /** The laws the header's round trip relies on. */
  ghost predicate HeaderLawful(p: Primitives) {
    p.BoxLawful() && p.TextCodingLawful() && p.JsonLawful()
  }

  /** A `DecryptInfo` written out for two valid ids reads back as the same two ids. */
  lemma ParseWrittenDecryptInfo(p: Primitives, senderId: Id, recipientId: Id, boxedFileInfo: string)
    requires p.JsonLawful() && Valid(p, senderId) && Valid(p, recipientId)
    requires p.decryptInfoToJson(DecryptInfoRecord(senderId.description, recipientId.description, boxedFileInfo)).Some?
    ensures ParseDecryptInfo(p, p.decryptInfoToJson(DecryptInfoRecord(senderId.description, recipientId.description, boxedFileInfo)).value)
      == Some(DecryptInfo(senderId, recipientId, boxedFileInfo, None))
  {
    var record := DecryptInfoRecord(senderId.description, recipientId.description, boxedFileInfo);
    assert p.decryptInfoFromJson(p.decryptInfoToJson(record).value) == Some(record);
    ReadDescription(p, senderId);
    ReadDescription(p, recipientId);
  }

  /** The entry sealed for a recipient opens with that recipient's key pair and yields the
      sender, the recipient, the boxed file info and the entry's nonce. */
  lemma OpenOwnEntry(p: Primitives, senderId: Id, recipient: Id, boxedFileInfo: string, nonce: Bytes,
                     ephemeralKey: Bytes, kp: KeyPair)
    requires HeaderLawful(p) && Valid(p, senderId) && Valid(p, recipient)
    requires |nonce| == BoxNonceBytes && |ephemeralKey| == BoxSecretKeyBytes
    requires Consistent(p, kp) && BoxKey(recipient) == p.publicKeyOf(kp.privateKey)
    requires SealEntry(p, senderId, recipient, boxedFileInfo, nonce, ephemeralKey).Some?
    ensures OpenEntry(p, p.publicKeyOf(ephemeralKey), kp, NonceKey(p, nonce),
                      SealEntry(p, senderId, recipient, boxedFileInfo, nonce, ephemeralKey).value)
      == Some(DecryptInfo(senderId, recipient, boxedFileInfo, Some(nonce)))
  {
    var record := DecryptInfoRecord(senderId.description, recipient.description, boxedFileInfo);
    var json := p.decryptInfoToJson(record).value;
    var m := p.utf8Encode(json);
    var c := p.boxSeal(m, nonce, p.publicKeyOf(kp.privateKey), ephemeralKey).value;
    assert JsonObjectText(json);
    assert |m| > 0;
    assert p.base64Decode(NonceKey(p, nonce)) == Some(nonce);
    assert p.base64Decode(p.base64Encode(c)) == Some(c);
    assert p.boxOpen(c, nonce, p.publicKeyOf(ephemeralKey), kp.privateKey) == Some(m);
    assert p.utf8Decode(m) == Some(json);
    ParseWrittenDecryptInfo(p, senderId, recipient, boxedFileInfo);
    OpenEntryOf(p, p.publicKeyOf(ephemeralKey), kp, NonceKey(p, nonce), p.base64Encode(c), nonce, c, m, json,
                DecryptInfo(senderId, recipient, boxedFileInfo, None));
  }

  /** The steps of `OpenEntry` taken one at a time. */
  lemma OpenEntryOf(p: Primitives, ephemeralPublic: Bytes, kp: KeyPair, nonceText: string, cipherText: string,
                    nonce: Bytes, boxed: Bytes, plain: Bytes, json: string, info: DecryptInfo)
    requires p.base64Decode(nonceText) == Some(nonce) && |nonce| == BoxNonceBytes
    requires p.base64Decode(cipherText) == Some(boxed) && |boxed| > BoxMacBytes
    requires p.boxOpen(boxed, nonce, ephemeralPublic, kp.privateKey) == Some(plain)
    requires p.utf8Decode(plain) == Some(json) && ParseDecryptInfo(p, json) == Some(info)
    ensures OpenEntry(p, ephemeralPublic, kp, nonceText, cipherText) == Some(info.(nonce := Some(nonce)))
  {
  }

  /** Under box authenticity, an entry sealed for a different public key does not open. */
  lemma OpenOtherEntry(p: Primitives, senderId: Id, recipient: Id, boxedFileInfo: string, nonce: Bytes,
                       ephemeralKey: Bytes, kp: KeyPair)
    requires p.TextCodingLawful() && p.BoxAuthentic()
    requires BoxKey(recipient) != p.publicKeyOf(kp.privateKey)
    requires SealEntry(p, senderId, recipient, boxedFileInfo, nonce, ephemeralKey).Some?
    ensures OpenEntry(p, p.publicKeyOf(ephemeralKey), kp, NonceKey(p, nonce),
                      SealEntry(p, senderId, recipient, boxedFileInfo, nonce, ephemeralKey).value).None?
  {
    var record := DecryptInfoRecord(senderId.description, recipient.description, boxedFileInfo);
    var m := p.utf8Encode(p.decryptInfoToJson(record).value);
    var c := p.boxSeal(m, nonce, BoxKey(recipient), ephemeralKey).value;
    assert p.base64Decode(p.base64Encode(nonce)) == Some(nonce);
    assert p.base64Decode(p.base64Encode(c)) == Some(c);
    assert p.boxOpen(c, nonce, p.publicKeyOf(ephemeralKey), kp.privateKey).None?;
  }

  /** The file info the sender boxed for a recipient opens with that recipient's key pair and
      reads back as the same `FileInfo`, the slash unescaping notwithstanding. */
  lemma OpenOwnFileInfo(p: Primitives, sender: KeyPair, recipient: Id, fileInfo: FileInfoRecord, nonce: Bytes, kp: KeyPair)
    requires HeaderLawful(p) && Consistent(p, sender) && Consistent(p, kp) && SameId(kp.publicId, recipient)
    requires |nonce| == BoxNonceBytes && p.fileInfoToJson(fileInfo).Some?
    requires SealFileInfo(p, FileInfoPlain(p, fileInfo), sender.privateKey, recipient, nonce).Some?
    ensures DecryptFileInfo(p, DecryptInfo(sender.publicId, recipient,
        SealFileInfo(p, FileInfoPlain(p, fileInfo), sender.privateKey, recipient, nonce).value, Some(nonce)), kp) == Some(fileInfo)
  {
    var stripped := Text.StripSlashEscapes(p.fileInfoToJson(fileInfo).value);
    var m := p.utf8Encode(stripped);
    var c := p.boxSeal(m, nonce, p.publicKeyOf(kp.privateKey), sender.privateKey).value;
    Text.StripKeepsFirst(p.fileInfoToJson(fileInfo).value);
    assert |m| > 0;
    assert p.base64Decode(p.base64Encode(c)).GetOr([]) == c;
    assert |c| == |m| + 16;
    assert p.boxOpen(c, nonce, p.publicKeyOf(sender.privateKey), kp.privateKey) == Some(m);
    assert p.utf8Decode(m) == Some(stripped);
    assert p.fileInfoFromJson(stripped) == Some(fileInfo);
  }

  /** The bytes the sender boxes for each recipient: the UTF-8 of the file info's JSON with its
      slash escapes removed (`toJSONStringWithoutEscapes`). */
  function FileInfoPlain(p: Primitives, fileInfo: FileInfoRecord): Bytes
    requires p.fileInfoToJson(fileInfo).Some?
  {
    p.utf8Encode(Text.StripSlashEscapes(p.fileInfoToJson(fileInfo).value))
  }

  /** What a recipient should get out of a header: an entry from the sender whose file info
      opens to the `FileInfo` the sender put in. */
  ghost predicate DeliversFileInfo(p: Primitives, found: Option<DecryptInfo>, sender: Id, kp: KeyPair, fileInfo: FileInfoRecord) {
    found.Some? && found.value.senderId == sender && DecryptFileInfo(p, found.value, kp) == Some(fileInfo)
  }

  /** A recipient's entry, opened with a key pair: it either does not open or delivers the
      file info; it opens when the key pair is the recipient's. */
  lemma OpenRecipientEntry(p: Primitives, sender: KeyPair, recipient: Id, fileInfo: FileInfoRecord,
                           nonce: Bytes, ephemeralKey: Bytes, kp: KeyPair)
    requires HeaderLawful(p) && Consistent(p, sender) && Consistent(p, kp) && Valid(p, recipient)
    requires |nonce| == BoxNonceBytes && |ephemeralKey| == BoxSecretKeyBytes && p.fileInfoToJson(fileInfo).Some?
    requires SealFileInfo(p, FileInfoPlain(p, fileInfo), sender.privateKey, recipient, nonce).Some?
    requires SealEntry(p, sender.publicId, recipient, SealFileInfo(p, FileInfoPlain(p, fileInfo), sender.privateKey, recipient, nonce).value,
                       nonce, ephemeralKey).Some?
    requires p.BoxAuthentic() || SameId(kp.publicId, recipient)
    ensures var boxedFileInfo := SealFileInfo(p, FileInfoPlain(p, fileInfo), sender.privateKey, recipient, nonce).value;
      var found := OpenEntry(p, p.publicKeyOf(ephemeralKey), kp, NonceKey(p, nonce),
                             SealEntry(p, sender.publicId, recipient, boxedFileInfo, nonce, ephemeralKey).value);
      (found.Some? || SameId(kp.publicId, recipient)) ==> DeliversFileInfo(p, found, sender.publicId, kp, fileInfo)
  {
    var boxedFileInfo := SealFileInfo(p, FileInfoPlain(p, fileInfo), sender.privateKey, recipient, nonce).value;
    SameIdByKey(p, kp.publicId, recipient);
    if SameId(kp.publicId, recipient) {
      OpenOwnEntry(p, sender.publicId, recipient, boxedFileInfo, nonce, ephemeralKey, kp);
      OpenOwnFileInfo(p, sender, recipient, fileInfo, nonce, kp);
    } else {
      OpenOtherEntry(p, sender.publicId, recipient, boxedFileInfo, nonce, ephemeralKey, kp);
    }
  }

  /** Whatever entry opens first, the search delivers the file info, provided every entry
      that opens does and at least one opens. */
  lemma FirstOpenedDelivers(p: Primitives, ephemeralPublic: Bytes, kp: KeyPair, entries: seq<(string, string)>,
                            sender: Id, fileInfo: FileInfoRecord, own: nat)
    requires own < |entries| && OpenEntry(p, ephemeralPublic, kp, entries[own].0, entries[own].1).Some?
    requires forall idx :: 0 <= idx < |entries| && OpenEntry(p, ephemeralPublic, kp, entries[idx].0, entries[idx].1).Some? ==>
      DeliversFileInfo(p, OpenEntry(p, ephemeralPublic, kp, entries[idx].0, entries[idx].1), sender, kp, fileInfo)
    ensures DeliversFileInfo(p, FirstOpened(p, ephemeralPublic, kp, entries), sender, kp, fileInfo)
  {
  }

  /** Every entry of a built dictionary that opens for `kp` delivers the file info. */
  lemma EntryDelivers(p: Primitives, sender: KeyPair, recipients: seq<Id>, fileInfo: FileInfoRecord,
                      nonces: seq<Bytes>, ephemeralKey: Bytes, boxed: seq<string>,
                      d: map<string, string>, k: string, kp: KeyPair)
    requires HeaderLawful(p) && Consistent(p, sender) && Consistent(p, kp)
    requires |nonces| == |recipients|
    requires forall j :: 0 <= j < |recipients| ==> Valid(p, recipients[j]) && |nonces[j]| == BoxNonceBytes
    requires |ephemeralKey| == BoxSecretKeyBytes
    requires p.BoxAuthentic() || (|recipients| == 1 && SameId(kp.publicId, recipients[0]))
    requires p.fileInfoToJson(fileInfo).Some?
    requires SealFileInfos(p, FileInfoPlain(p, fileInfo), sender.privateKey, recipients, nonces) == Some(boxed)
    requires SealEntries(p, sender.publicId, recipients, boxed, nonces, ephemeralKey, |recipients|) == Some(d)
    requires k in d
    ensures OpenEntry(p, p.publicKeyOf(ephemeralKey), kp, k, d[k]).Some? ==>
      DeliversFileInfo(p, OpenEntry(p, p.publicKeyOf(ephemeralKey), kp, k, d[k]), sender.publicId, kp, fileInfo)
  {
    SealEntriesValues(p, sender.publicId, recipients, boxed, nonces, ephemeralKey, |recipients|, k);
    var j :| 0 <= j < |recipients| && NonceKey(p, nonces[j]) == k
      && d[k] == SealEntry(p, sender.publicId, recipients[j], boxed[j], nonces[j], ephemeralKey).value;
    var authentic := p.BoxAuthentic();
    if !authentic {
      assert j == 0;
    }
    assert Valid(p, recipients[j]) && |nonces[j]| == BoxNonceBytes;
    OpenRecipientEntry(p, sender, recipients[j], fileInfo, nonces[j], ephemeralKey, kp);
  }

  /** Recipient `i`'s entry is in the built dictionary, visited by the iteration, and opens
      for its key pair, when the nonces are distinct. */
  lemma OwnEntryOpens(p: Primitives, sender: KeyPair, recipients: seq<Id>, fileInfo: FileInfoRecord,
                      nonces: seq<Bytes>, ephemeralKey: Bytes, boxed: seq<string>,
                      d: map<string, string>, entries: seq<(string, string)>, i: nat, kp: KeyPair)
      returns (idx: nat)
    requires HeaderLawful(p) && Consistent(p, sender) && Consistent(p, kp)
    requires |nonces| == |recipients| && i < |recipients| && SameId(kp.publicId, recipients[i])
    requires Valid(p, recipients[i]) && |nonces[i]| == BoxNonceBytes
    requires forall a, b :: 0 <= a < b < |nonces| ==> nonces[a] != nonces[b]
    requires |ephemeralKey| == BoxSecretKeyBytes
    requires p.fileInfoToJson(fileInfo).Some?
    requires SealFileInfos(p, FileInfoPlain(p, fileInfo), sender.privateKey, recipients, nonces) == Some(boxed)
    requires SealEntries(p, sender.publicId, recipients, boxed, nonces, ephemeralKey, |recipients|) == Some(d)
    requires EntryOrderLawful(d, entries)
    ensures idx < |entries| && OpenEntry(p, p.publicKeyOf(ephemeralKey), kp, entries[idx].0, entries[idx].1).Some?
  {
    forall j | i < j < |recipients|
      ensures NonceKey(p, nonces[j]) != NonceKey(p, nonces[i])
    {
      assert p.base64Decode(p.base64Encode(nonces[j])) == Some(nonces[j]);
      assert p.base64Decode(p.base64Encode(nonces[i])) == Some(nonces[i]);
    }
    SealEntriesLastWriter(p, sender.publicId, recipients, boxed, nonces, ephemeralKey, |recipients|, i);
    idx :| 0 <= idx < |entries| && entries[idx].0 == NonceKey(p, nonces[i]);
    OpenRecipientEntry(p, sender, recipients[i], fileInfo, nonces[i], ephemeralKey, kp);
  }

  /** The header round trip: a header built by `sender` for `recipients` lets recipient `i`'s
      key pair find an entry from the sender and open the file info the sender put in. With
      several recipients this needs box authenticity, so that another recipient's entry never
      opens; the random nonces are taken to be distinct. */
  lemma HeaderRoundTrip(p: Primitives, sender: KeyPair, recipients: seq<Id>, fileInfo: FileInfoRecord,
                        nonces: seq<Bytes>, ephemeralKey: Bytes, i: nat, kp: KeyPair)
    requires HeaderLawful(p) && p.DictionaryOrderLawful()
    requires Consistent(p, sender) && Consistent(p, kp)
    requires |nonces| == |recipients| && i < |recipients| && SameId(kp.publicId, recipients[i])
    requires forall j :: 0 <= j < |recipients| ==> Valid(p, recipients[j]) && |nonces[j]| == BoxNonceBytes
    requires forall a, b :: 0 <= a < b < |nonces| ==> nonces[a] != nonces[b]
    requires |ephemeralKey| == BoxSecretKeyBytes
    requires p.BoxAuthentic() || |recipients| == 1
    requires Build(p, sender, recipients, fileInfo, nonces, ephemeralKey).Some?
    ensures DeliversFileInfo(p, DecryptDecryptInfo(p, Build(p, sender, recipients, fileInfo, nonces, ephemeralKey).value, kp),
                             sender.publicId, kp, fileInfo)
  {
    var boxed := SealFileInfos(p, FileInfoPlain(p, fileInfo), sender.privateKey, recipients, nonces).value;
    var d := SealEntries(p, sender.publicId, recipients, boxed, nonces, ephemeralKey, |recipients|).value;
    var h := Build(p, sender, recipients, fileInfo, nonces, ephemeralKey).value;
    assert h.decryptInfo == d;
    var ephemeralPublic := p.publicKeyOf(ephemeralKey);
    assert p.base64Decode(h.ephemeral) == Some(ephemeralPublic);
    var entries := p.entryOrder(d);
    assert EntryOrderLawful(d, entries);
    forall idx | 0 <= idx < |entries|
      ensures OpenEntry(p, ephemeralPublic, kp, entries[idx].0, entries[idx].1).Some? ==>
        DeliversFileInfo(p, OpenEntry(p, ephemeralPublic, kp, entries[idx].0, entries[idx].1), sender.publicId, kp, fileInfo)
    {
      EntryDelivers(p, sender, recipients, fileInfo, nonces, ephemeralKey, boxed, d, entries[idx].0, kp);
    }
    var own := OwnEntryOpens(p, sender, recipients, fileInfo, nonces, ephemeralKey, boxed, d, entries, i, kp);
    FirstOpenedDelivers(p, ephemeralPublic, kp, entries, sender.publicId, fileInfo, own);
  }
}
