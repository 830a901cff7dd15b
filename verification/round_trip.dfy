/** What the encryptors write, the decryptors read back: a recipient's key pair recovers the
    sender's id, the plaintext and (for a file) the name, under the laws of the primitives. */
module RoundTrip {
  import opened Wrappers
  import opened Bytes
  import opened FileFormat
  import opened Seqs
  import opened Primitives
  import opened Identity
  import Header
  import Text
  import opened Stream
  import opened Container
  import FileNames
  import opened Decryptor
  import opened Encryptor

  /** Every frame the stream writes is one the reader takes off whole. */
  lemma EncryptFramed(s: StreamState, block: Bytes, isLast: bool, p: Primitives)
    requires p.StreamLawful() && Encrypt(s, block, isLast, p).Success?
    ensures Framed(Encrypt(s, block, isLast, p).value.output)
  {
  }

  lemma {:induction false} EncryptAllFramed(s: StreamState, blocks: seq<Bytes>, p: Primitives)
    requires p.StreamLawful() && EncryptAll(s, blocks, p).Success?
    ensures forall k :: 0 <= k < |blocks| ==> Framed(EncryptAll(s, blocks, p).value.outputs[k])
    decreases |blocks|
  {
    if |blocks| > 0 {
      var step := Encrypt(s, blocks[0], |blocks| == 1, p).value;
      EncryptFramed(s, blocks[0], |blocks| == 1, p);
      EncryptAllFramed(step.state, blocks[1..], p);
      var outs := EncryptAll(s, blocks, p).value.outputs;
      assert forall k :: 1 <= k < |blocks| ==> outs[k] == EncryptAll(step.state, blocks[1..], p).value.outputs[k - 1];
    }
  }

  /** A name with no NUL character whose UTF-8 fits in 255 bytes is read back from its padded
      block unchanged. */
  lemma PaddedNameReadsBack(p: Primitives, name: string)
    requires p.TextCodingLawful()
    requires forall i :: 0 <= i < |name| ==> name[i] != '\0'
    requires |p.utf8Encode(name)| <= FileNameMaxLength
    ensures EmbeddedName(p, PaddedFileName(p, name)) == Some(name)
  {
    var u := p.utf8Encode(name);
    assert 0 !in u;
    var b := PaddedFileName(p, name);
    assert b[..|u|] == u && b[|u|] in b;
    UntilNulOf(b, u);
  }

  /** A longer name is cut to its first 255 UTF-8 bytes, and what is read back is the decoding
      of those bytes. */
  lemma PaddedNameCut(p: Primitives, name: string)
    requires p.TextCodingLawful()
    requires forall i :: 0 <= i < |name| ==> name[i] != '\0'
    requires |p.utf8Encode(name)| > FileNameMaxLength
    ensures EmbeddedName(p, PaddedFileName(p, name)) == p.utf8Decode(p.utf8Encode(name)[..FileNameMaxLength])
  {
    var u := p.utf8Encode(name)[..FileNameMaxLength];
    assert 0 !in p.utf8Encode(name);
    var b := PaddedFileName(p, name);
    assert b[..|u|] == u && b[|u|] in b;
    UntilNulOf(b, u);
  }

  /** The setting of the round trip: the laws of the primitives, key pairs whose public ids match
      their secret keys, valid recipient ids of which the key pair's id is one, randomness as it
      is drawn (distinct 24-byte box nonces, a 32-byte ephemeral key), and box authenticity when
      there is more than one recipient. */
  ghost predicate Delivery(p: Primitives, sender: KeyPair, recipients: seq<Id>, rand: Randomness, kp: KeyPair) {
    && p.StreamLawful() && Header.HeaderLawful(p) && p.DictionaryOrderLawful()
    && Consistent(p, sender) && Consistent(p, kp)
    && Drawn(rand, recipients)
    && (exists i :: 0 <= i < |recipients| && SameId(kp.publicId, recipients[i]))
    && (forall j :: 0 <= j < |recipients| ==> Valid(p, recipients[j]) && |rand.nonces[j]| == BoxNonceBytes)
    && (forall a, b :: 0 <= a < b < |rand.nonces| ==> rand.nonces[a] != rand.nonces[b])
    && |rand.ephemeralKey| == BoxSecretKeyBytes
    && (p.BoxAuthentic() || |recipients| == 1)
  }

  /** Whatever 32-byte BLAKE2s digest the stream ends with, the header text is shorter than
      2^32 bytes, so its length fits the 4-byte field (see `Container.OversizedHeaderMisread` for
      a header that does not). */
  ghost predicate HeaderFits(p: Primitives, sender: KeyPair, recipients: seq<Id>, rand: Randomness)
    requires |rand.nonces| == |recipients|
  {
    forall hash :: |hash| == Blake2sOutputLength && HeaderData(p, sender, recipients, Header.MakeFileInfo(p, rand.key, rand.fileNonce, hash), rand).Some? ==>
      |HeaderData(p, sender, recipients, Header.MakeFileInfo(p, rand.key, rand.fileNonce, hash), rand).value| < Pow256(HeaderBytesLength)
  }

  /** A container sealed for the key pair opens to the stream the encryptor started from, with
      the sender's id and the payload as written. */
  lemma OpenContainer(p: Primitives, sender: KeyPair, recipients: seq<Id>, rand: Randomness, kp: KeyPair,
                      hash: Bytes, payload: Bytes)
    requires Delivery(p, sender, recipients, rand, kp) && HeaderFits(p, sender, recipients, rand)
    requires |hash| == Blake2sOutputLength
    requires HeaderData(p, sender, recipients, Header.MakeFileInfo(p, rand.key, rand.fileNonce, hash), rand).Some?
    ensures GetBlockDecryptor(p, Layout(HeaderData(p, sender, recipients, Header.MakeFileInfo(p, rand.key, rand.fileNonce, hash), rand).value, payload), kp)
      == Success(Opened(Start(rand), sender.publicId, payload))
  {
    var fileInfo := Header.MakeFileInfo(p, rand.key, rand.fileNonce, hash);
    var h := Header.Build(p, sender, recipients, fileInfo, rand.nonces, rand.ephemeralKey).value;
    var json := p.headerToJson(h).value;
    var text := Text.StripSlashEscapes(json);
    var headerData := p.utf8Encode(text);
    assert HeaderData(p, sender, recipients, fileInfo, rand) == Some(headerData);
    ParseLayout(p, headerData, payload);
    assert ParsePreamble(p, Layout(headerData, payload)) == Success(Preamble(text, payload));
    assert p.headerFromJson(text) == Some(h);
    var i :| 0 <= i < |recipients| && SameId(kp.publicId, recipients[i]);
    Header.HeaderRoundTrip(p, sender, recipients, fileInfo, rand.nonces, rand.ephemeralKey, i, kp);
    var found := Header.DecryptDecryptInfo(p, h, kp);
    assert found.Some? && found.value.senderId == sender.publicId;
    assert Header.DecryptFileInfo(p, found.value, kp) == Some(fileInfo);
    assert p.base64Decode(fileInfo.key) == Some(rand.key) && p.base64Decode(fileInfo.nonce) == Some(rand.fileNonce);
    assert Stream.Init(rand.key, rand.fileNonce) == Success(Start(rand));
    GetBlockDecryptorOf(p, Layout(headerData, payload), kp, Preamble(text, payload), h, found.value, fileInfo,
                        rand.key, rand.fileNonce);
  }

  /** The payload of a name block and a non-empty content: the stream never fails, the frames
      are read back one by one, there are at least two, and decrypting them from the same
      stream gives the name block and the content's chunks. */
  lemma PayloadFrames(p: Primitives, s: StreamState, nameBlock: Bytes, content: Bytes)
    requires p.StreamLawful() && s.status == Incomplete && ValidBlock(nameBlock) && |content| > 0
    ensures EncryptPayload(s, nameBlock, Chunks(content), p).Success?
    ensures var run := EncryptPayload(s, nameBlock, Chunks(content), p).value;
      && ParseFrames(Concat(run.outputs)) == Success(run.outputs)
      && |run.outputs| >= 2
      && DecryptAll(s, run.outputs, p) == Success(run.(outputs := [nameBlock] + Chunks(content)))
  {
    var blocks := [nameBlock] + Chunks(content);
    ChunksStep(content);
    ChunksValid(content);
    EncryptPayloadAll(s, nameBlock, Chunks(content), p);
    assert forall k :: 1 <= k < |blocks| ==> blocks[k] == Chunks(content)[k - 1];
    EncryptAllSucceeds(s, blocks, p);
    var run := EncryptAll(s, blocks, p).value;
    EncryptAllFramed(s, blocks, p);
    ParseConcat(run.outputs);
    EncryptAllDecryptAll(s, blocks, run, p);
  }

  /** The heart of both round trips: the container sealed around the payload of a name block
      and a non-empty content decrypts, for the key pair, to the sender's id and the content,
      and its first block decrypts to the name block. */
  lemma SealedDecrypts(p: Primitives, sender: KeyPair, recipients: seq<Id>, rand: Randomness, kp: KeyPair,
                       nameBlock: Bytes, content: Bytes)
    requires Delivery(p, sender, recipients, rand, kp) && HeaderFits(p, sender, recipients, rand)
    requires ValidBlock(nameBlock) && |content| > 0
    ensures EncryptPayload(Start(rand), nameBlock, Chunks(content), p).Success?
    ensures var run := EncryptPayload(Start(rand), nameBlock, Chunks(content), p).value;
      var sealed := Seal(p, sender, recipients, FileInfoOf(p, rand, run.state), rand, Concat(run.outputs));
      sealed.Success? ==>
        && DecryptInMemory(p, sealed.value, kp) == Success(Decrypted(sender.publicId, content))
        && NameBlock(p, sealed.value, kp) == Some(nameBlock)
  {
    var s := Start(rand);
    PayloadFrames(p, s, nameBlock, content);
    var run := EncryptPayload(s, nameBlock, Chunks(content), p).value;
    var fileInfo := FileInfoOf(p, rand, run.state);
    var sealed := Seal(p, sender, recipients, fileInfo, rand, Concat(run.outputs));
    if sealed.Success? {
      var payload := Concat(run.outputs);
      var headerData := HeaderData(p, sender, recipients, fileInfo, rand).value;
      assert sealed.value == Layout(headerData, payload);
      OpenContainer(p, sender, recipients, rand, kp, run.state.cipherTextHash, payload);
      DecryptInMemoryFrames(p, sealed.value, kp);
      var plain := [nameBlock] + Chunks(content);
      assert plain[1..] == Chunks(content);
      SplitEveryConcat(content, PlainTextBlockMaxBytes);
      ReadFramed(run.outputs[0], Concat(run.outputs[1..]));
      EncryptDecrypt(s, nameBlock, false, p);
    }
  }

  /** In-memory round trip (`encrypt(_:destinationFileURL:sender:recipients:)` then
      `decrypt(deleteSourceFile:)`): each recipient recovers the sender's id and the data. */
  lemma DataRoundTrip(p: Primitives, data: Bytes, sender: KeyPair, recipients: seq<Id>,
                      created: bool, tempCreated: bool, rand: Randomness, kp: KeyPair)
    requires Delivery(p, sender, recipients, rand, kp) && HeaderFits(p, sender, recipients, rand)
    requires EncryptData(p, data, sender, recipients, created, tempCreated, rand).Success?
    ensures DecryptInMemory(p, EncryptData(p, data, sender, recipients, created, tempCreated, rand).value, kp)
      == Success(Decrypted(sender.publicId, data))
  {
    SealedDecrypts(p, sender, recipients, rand, kp, Zeros(FileNameMaxLength + 1), data);
  }

  /** The container written to a directory is the header sealed over the encrypted name block
      followed by the encrypted chunks of the source. */
  lemma WrittenContainer(p: Primitives, job: Job, suggested: Option<string>, dir: FileNames.Directory,
                         created: bool, tempCreated: bool, source: Bytes, rand: Randomness)
    requires p.StreamLawful() && Drawn(rand, job.recipients) && |job.paddedFileName| == FileNameMaxLength + 1
    requires EncryptToDirectory(p, job, suggested, dir, created, tempCreated, source, rand).Success?
    ensures |source| > 0 && EncryptPayload(Start(rand), job.paddedFileName, Chunks(source), p).Success?
    ensures var run := EncryptPayload(Start(rand), job.paddedFileName, Chunks(source), p).value;
      var sealed := Seal(p, job.sender, job.recipients, FileInfoOf(p, rand, run.state), rand, Concat(run.outputs));
      sealed == Success(EncryptToDirectory(p, job, suggested, dir, created, tempCreated, source, rand).value.container)
  {
    var s := Start(rand);
    var named := Encrypt(s, job.paddedFileName, false, p).value;
    var run := EncryptAll(named.state, Chunks(source), p).value;
    assert EncryptPayload(s, job.paddedFileName, Chunks(source), p) == Success(Run(run.state, [named.output] + run.outputs));
  }

  /** File round trip (`encrypt(destinationDirectory:filename:deleteSourceFile:)` then
      `decrypt(destinationDirectory:filename:deleteSourceFile:)` with no suggested name): each
      recipient recovers the sender's id and the contents, saved under the source file's name
      (made unique in the destination directory) when that name has no NUL and fits in 255
      UTF-8 bytes. */
  lemma FileRoundTrip(p: Primitives, fileName: string, sender: KeyPair, recipients: seq<Id>,
                      suggested: Option<string>, dir: FileNames.Directory, created: bool, tempCreated: bool,
                      source: Bytes, rand: Randomness, kp: KeyPair, destination: FileNames.Directory, job: Job, written: Written)
    requires Delivery(p, sender, recipients, rand, kp) && HeaderFits(p, sender, recipients, rand)
    requires NewJob(p, true, fileName, sender, recipients) == Success(job)
    requires EncryptToDirectory(p, job, suggested, dir, created, tempCreated, source, rand) == Success(written)
    requires forall i :: 0 <= i < |fileName| ==> fileName[i] != '\0'
    requires |p.utf8Encode(fileName)| <= FileNameMaxLength
    ensures DecryptInMemory(p, written.container, kp) == Success(Decrypted(sender.publicId, source))
    ensures DecryptToDirectory(p, written.container, kp, None, destination, true)
      == Success(Saved(sender.publicId, FileNames.NewFile(destination, fileName, true).value, source))
  {
    WrittenContainer(p, job, suggested, dir, created, tempCreated, source, rand);
    SealedDecrypts(p, sender, recipients, rand, kp, job.paddedFileName, source);
    PaddedNameReadsBack(p, fileName);
    assert NameBlock(p, written.container, kp) == Some(job.paddedFileName);
    assert Basename(p, None, job.paddedFileName) == Some(fileName);
    DecryptToDirectoryOf(p, written.container, kp, None, destination, Decrypted(sender.publicId, source));
  }

  /** The encryptor and the decryptor accept the same source URLs: given a recipient, both
      constructors reject a URL with the same error or both accept it. */
  lemma SourceChecksAgree(p: Primitives, isFileUrl: bool, fileName: string, sender: KeyPair, recipients: seq<Id>)
    requires |recipients| > 0
    ensures NewJob(p, isFileUrl, fileName, sender, recipients).Success? <==> SourceError(isFileUrl, fileName).None?
    ensures NewJob(p, isFileUrl, fileName, sender, recipients).Failure? ==>
      NewJob(p, isFileUrl, fileName, sender, recipients).error == MiniLock(SourceError(isFileUrl, fileName).value)
  {
  }
}
