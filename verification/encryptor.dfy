/** `MiniLock.FileEncryptor`: encrypt a name block and the plaintext in 1 MiB chunks with one
    block stream, then write the magic bytes, the header length, the header that carries the
    stream's key, file nonce and ciphertext hash, and the encrypted payload. Randomness and the
    file system's answers are parameters. */
module Encryptor {
  import opened Wrappers
  import opened Bytes
  import opened FileFormat
  import opened Seqs
  import opened Primitives
  import opened Identity
  import Header
  import Text
  import opened Stream
  import opened Container
  import FileNames

  /** What the encryptors draw at random: the stream's file key and file nonce
      (`StreamEncryptor()`), and for the header one box nonce per recipient and the ephemeral
      secret key. */
  datatype Randomness = Randomness(key: Bytes, fileNonce: Bytes, nonces: seq<Bytes>, ephemeralKey: Bytes)

  /** Randomness of the sizes it is drawn in: a 32-byte key, a 16-byte file nonce and one box
      nonce per recipient. */
  predicate Drawn(rand: Randomness, recipients: seq<Id>) {
    |rand.key| == SecretBoxKeyBytes && |rand.fileNonce| == FileNonceBytes && |rand.nonces| == |recipients|
  }

  /** The stream a fresh `StreamEncryptor` starts from. */
  function Start(rand: Randomness): (s: StreamState)
    requires |rand.key| == SecretBoxKeyBytes && |rand.fileNonce| == FileNonceBytes
    ensures Stream.Init(rand.key, rand.fileNonce) == Success(s)
  {
    Stream.Init(rand.key, rand.fileNonce).value
  }

  /** `paddedFileName(fromFileURL:)`: the UTF-8 bytes of the name, cut to their first 255, then
      zeros up to 256 bytes, so at least one NUL always ends the name. */
  function PaddedFileName(p: Primitives, name: string): (r: Bytes)
    ensures |r| == FileNameMaxLength + 1
    ensures var u := p.utf8Encode(name);
      var kept := if |u| <= FileNameMaxLength then |u| else FileNameMaxLength;
      && r[..kept] == u[..kept]
      && forall i :: kept <= i < |r| ==> r[i] == 0
  {
    var u := p.utf8Encode(name);
    var kept := if |u| > FileNameMaxLength then u[..FileNameMaxLength] else u;
    kept + Zeros(FileNameMaxLength - |kept| + 1)
  }

  /** One `readData(ofLength: PlainTextBlockMaxBytes)`: the next chunk of plaintext. */
  function NextChunk(rest: Bytes): (r: Bytes)
    ensures |r| <= PlainTextBlockMaxBytes && |r| <= |rest| && r == rest[..|r|]
    ensures |r| == 0 <==> |rest| == 0
    ensures |r| < PlainTextBlockMaxBytes ==> r == rest
  {
    Take(rest, PlainTextBlockMaxBytes)
  }

  /** The plaintext cut into the blocks the stream encrypts. */
  function Chunks(data: Bytes): seq<Bytes> {
    SplitEvery(data, PlainTextBlockMaxBytes)
  }

  /** The chunks of a non-empty plaintext are its first chunk and the chunks of what follows. */
  lemma ChunksStep(rest: Bytes)
    ensures |rest| == 0 <==> Chunks(rest) == []
    ensures |rest| > 0 ==> Chunks(rest) == [NextChunk(rest)] + Chunks(rest[|NextChunk(rest)|..])
  {
    if 0 < |rest| <= PlainTextBlockMaxBytes {
      assert rest[|rest|..] == [];
      assert Chunks(rest) == [rest] + [];
    }
  }

  /** Every chunk of the plaintext is a block the stream accepts. */
  lemma ChunksValid(data: Bytes)
    ensures forall k :: 0 <= k < |Chunks(data)| ==> ValidBlock(Chunks(data)[k])
  {
    SplitEveryLengths(data, PlainTextBlockMaxBytes);
  }

  /** `outputs` in front of the outputs of a run. */
  function Extend(outputs: seq<Bytes>, r: Result<Run, CryptoError>): Result<Run, CryptoError> {
    match r
    case Failure(e) => Failure(e)
    case Success(run) => Success(Run(run.state, outputs + run.outputs))
  }

  /** Nothing in front leaves a run as it is. */
  lemma ExtendNothing(r: Result<Run, CryptoError>)
    ensures Extend([], r) == r
  {
    if r.Success? {
      assert [] + r.value.outputs == r.value.outputs;
    }
  }

  /** Putting `b` and then `a` in front is putting `a + b` in front. */
  lemma ExtendExtend(a: seq<Bytes>, b: seq<Bytes>, r: Result<Run, CryptoError>)
    ensures Extend(a, Extend(b, r)) == Extend(a + b, r)
  {
    if r.Success? {
      assert a + (b + r.value.outputs) == (a + b) + r.value.outputs;
    }
  }

  /** One round of either chunk loop: the next chunk is encrypted, as the last exactly when no
      plaintext follows it. */
  lemma EncryptStep(outputs: seq<Bytes>, s: StreamState, rest: Bytes, p: Primitives)
    requires p.StreamLawful() && |rest| > 0
    ensures var chunk := NextChunk(rest);
      match Encrypt(s, chunk, |rest| <= PlainTextBlockMaxBytes, p)
      case Failure(e) => Extend(outputs, EncryptAll(s, Chunks(rest), p)) == Failure(e)
      case Success(step) =>
        Extend(outputs, EncryptAll(s, Chunks(rest), p))
          == Extend(outputs + [step.output], EncryptAll(step.state, Chunks(rest[|chunk|..]), p))
  {
    var chunk := NextChunk(rest);
    var c := Chunks(rest);
    ChunksStep(rest);
    ChunksStep(rest[|chunk|..]);
    assert c[0] == chunk && c[1..] == Chunks(rest[|chunk|..]);
    assert |c| == 1 <==> |rest| <= PlainTextBlockMaxBytes;
    match Encrypt(s, chunk, |rest| <= PlainTextBlockMaxBytes, p)
    case Failure(e) =>
    case Success(step) =>
      var tail := EncryptAll(step.state, c[1..], p);
      assert EncryptAll(s, c, p) == Extend([step.output], tail);
      ExtendExtend(outputs, [step.output], tail);
  }

  /** The number of chunks the data encryptor counts: `count / max`, plus one for a shorter
      final chunk. */
  lemma BlockCount(n: nat)
    ensures n / PlainTextBlockMaxBytes + (if n % PlainTextBlockMaxBytes > 0 then 1 else 0)
      == (n + PlainTextBlockMaxBytes - 1) / PlainTextBlockMaxBytes
  {
    var m := PlainTextBlockMaxBytes;
    var q, r := n / m, n % m;
    if r == 0 {
      DivModUnique(n + m - 1, m, q, m - 1);
    } else {
      DivModUnique(n + m - 1, m, q + 1, r - 1);
    }
  }

  /** Round `i` of the data loop: the block `blockStart ..< blockEnd`, with the end clamped to
      the data's size, is the next chunk of the data from `blockStart`; it is the last exactly
      when the end reaches the data's size; and what follows it is the data from the next
      block start, with one chunk fewer. */
  lemma DataBlock(data: Bytes, i: nat, total: nat, blockStart: nat, blockEnd: nat, rest: Bytes)
    requires i < total && |Chunks(rest)| == total - i && blockStart < |data| && rest == data[blockStart..]
    requires blockEnd == if blockStart + PlainTextBlockMaxBytes > |data| then |data| else blockStart + PlainTextBlockMaxBytes
    ensures |rest| > 0 && blockStart < blockEnd <= |data|
    ensures data[blockStart..blockEnd] == NextChunk(rest)
    ensures blockEnd == |data| <==> |rest| <= PlainTextBlockMaxBytes
    ensures |Chunks(rest[|NextChunk(rest)|..])| == total - (i + 1)
    ensures i + 1 < total ==>
              && blockStart + PlainTextBlockMaxBytes < |data|
              && rest[|NextChunk(rest)|..] == data[blockStart + PlainTextBlockMaxBytes..]
  {
    ChunksStep(rest);
    ChunksStep(rest[|NextChunk(rest)|..]);
  }


  /** The chunk loop of `encrypt(_:destinationFileURL:sender:recipients:)`: `totalDataBlocks`
      rounds over `blockStart ..< blockEnd`, the end clamped to the data's size, each block the
      last exactly when it reaches the end of the data. */
  method EncryptDataBlocks(s: StreamState, data: Bytes, p: Primitives) returns (r: Result<Run, CryptoError>)
    requires p.StreamLawful()
    ensures r == EncryptAll(s, Chunks(data), p)
  {
    var n := |data|;
    var totalDataBlocks := n / PlainTextBlockMaxBytes + (if n % PlainTextBlockMaxBytes > 0 then 1 else 0);
    BlockCount(n);
    SplitEveryCount(data, PlainTextBlockMaxBytes);
    var blockStart: nat, blockEnd: nat := 0, PlainTextBlockMaxBytes;
    var state, outputs := s, [];
    ghost var rest := data;
    ExtendNothing(EncryptAll(s, Chunks(data), p));
    var i := 0;
    while i < totalDataBlocks
      invariant 0 <= i <= totalDataBlocks
      invariant |Chunks(rest)| == totalDataBlocks - i
      invariant i < totalDataBlocks ==> blockStart < n && rest == data[blockStart..]
      invariant i < totalDataBlocks ==> blockEnd == blockStart + PlainTextBlockMaxBytes
      invariant EncryptAll(s, Chunks(data), p) == Extend(outputs, EncryptAll(state, Chunks(rest), p))
    {
      if blockEnd > n {
        blockEnd := n;
      }
      DataBlock(data, i, totalDataBlocks, blockStart, blockEnd, rest);
      EncryptStep(outputs, state, rest, p);
      var step := Encrypt(state, data[blockStart..blockEnd], blockEnd == n, p);
      if step.Failure? {
        return Failure(step.error);
      }
      outputs := outputs + [step.value.output];
      state := step.value.state;
      rest := rest[|NextChunk(rest)|..];
      blockStart := blockStart + PlainTextBlockMaxBytes;
      blockEnd := blockEnd + PlainTextBlockMaxBytes;
      i := i + 1;
    }
    ChunksStep(rest);
    assert outputs + [] == outputs;
    return Success(Run(state, outputs));
  }

  /** A stream error as a file-level error. */
  function Lift(r: Result<Run, CryptoError>): Result<Run, Failure> {
    match r
    case Failure(e) => Failure(Crypto(e))
    case Success(run) => Success(run)
  }

  /** One round of the read-ahead loop over a source: the block read ahead is the next chunk
      after the current one, and it is empty exactly when the current one is the last. */
  lemma SourceBlock(currentBlock: Bytes, remaining: Bytes)
    requires |currentBlock| > 0 && currentBlock == NextChunk(currentBlock + remaining)
    ensures (currentBlock + remaining)[|NextChunk(currentBlock + remaining)|..] == remaining
    ensures |currentBlock + remaining| <= PlainTextBlockMaxBytes <==> |NextChunk(remaining)| == 0
    ensures NextChunk(remaining) + remaining[|NextChunk(remaining)|..] == remaining
    ensures NextChunk(remaining) == NextChunk(NextChunk(remaining) + remaining[|NextChunk(remaining)|..])
  {
    assert (currentBlock + remaining)[|currentBlock|..] == remaining;
  }

  /** The read-ahead chunk loop of `encrypt(destinationDirectory:filename:deleteSourceFile:)`:
      an empty source is `sourceFileEmpty`; otherwise the next chunk is read before the current
      one is encrypted, which is the last exactly when the next one is empty. */
  method EncryptSourceBlocks(s: StreamState, source: Bytes, p: Primitives) returns (r: Result<Run, Failure>)
    requires p.StreamLawful()
    ensures |source| == 0 ==> r == Failure(MiniLock(SourceFileEmpty))
    ensures |source| > 0 ==> r == Lift(EncryptAll(s, Chunks(source), p))
  {
    var currentBlock := NextChunk(source);
    var remaining := source[|currentBlock|..];
    if |currentBlock| == 0 {
      return Failure(MiniLock(SourceFileEmpty));
    }
    assert currentBlock + remaining == source;
    var state, outputs := s, [];
    ExtendNothing(EncryptAll(s, Chunks(source), p));
    while |currentBlock| > 0
      invariant |currentBlock| == 0 ==> remaining == []
      invariant currentBlock == NextChunk(currentBlock + remaining)
      invariant EncryptAll(s, Chunks(source), p) == Extend(outputs, EncryptAll(state, Chunks(currentBlock + remaining), p))
      decreases |currentBlock| + |remaining|
    {
      var nextBlock := NextChunk(remaining);
      SourceBlock(currentBlock, remaining);
      EncryptStep(outputs, state, currentBlock + remaining, p);
      var step := Encrypt(state, currentBlock, |nextBlock| == 0, p);
      if step.Failure? {
        return Failure(Crypto(step.error));
      }
      outputs := outputs + [step.value.output];
      state := step.value.state;
      currentBlock, remaining := nextBlock, remaining[|nextBlock|..];
    }
    ChunksStep(currentBlock + remaining);
    assert outputs + [] == outputs;
    return Success(Run(state, outputs));
  }

  /** The copy loop at the end of both encryptors: the temporary payload file is read back in
      1 MiB pieces and each piece written out, until a read comes back empty. */
  method CopyPayload(payload: Bytes) returns (written: Bytes)
    ensures written == payload
  {
    written := [];
    var remaining := payload;
    var currentBlock := NextChunk(remaining);
    while |currentBlock| > 0
      invariant written + remaining == payload
      invariant currentBlock == NextChunk(remaining)
      decreases |remaining|
    {
      written := written + currentBlock;
      remaining := remaining[|currentBlock|..];
      currentBlock := NextChunk(remaining);
    }
  }

  /** The payload stream: the name block, flagged not last, then the content chunks as a run. */
  function EncryptPayload(s: StreamState, nameBlock: Bytes, chunks: seq<Bytes>, p: Primitives): Result<Run, CryptoError>
    requires p.StreamLawful()
  {
    match Encrypt(s, nameBlock, false, p)
    case Failure(e) => Failure(e)
    case Success(named) => Extend([named.output], EncryptAll(named.state, chunks, p))
  }

  /** With at least one content chunk, the payload is one run over the name block and the
      chunks: the name block is never the last. */
  lemma EncryptPayloadAll(s: StreamState, nameBlock: Bytes, chunks: seq<Bytes>, p: Primitives)
    requires p.StreamLawful() && |chunks| > 0
    ensures EncryptPayload(s, nameBlock, chunks, p) == EncryptAll(s, [nameBlock] + chunks, p)
  {
    var all := [nameBlock] + chunks;
    assert all[0] == nameBlock && all[1..] == chunks;
  }

  /** The header text as written: the header's JSON with slash escapes removed, in UTF-8.
      `None` when the header cannot be built or written. */
  function HeaderData(p: Primitives, sender: KeyPair, recipients: seq<Id>, fileInfo: FileInfoRecord,
                      rand: Randomness): (r: Option<Bytes>)
    requires |rand.nonces| == |recipients|
    ensures r.Some? ==> Header.Build(p, sender, recipients, fileInfo, rand.nonces, rand.ephemeralKey).Some?
    ensures r.Some? ==> |recipients| > 0
  {
    match Header.Build(p, sender, recipients, fileInfo, rand.nonces, rand.ephemeralKey)
    case None => None
    case Some(h) =>
      match p.headerToJson(h)
      case None => None
      case Some(json) => Some(p.utf8Encode(Text.StripSlashEscapes(json)))
  }
  /** The header text written reads back, the way the decryptor reads it (UTF-8, then JSON), to
      the header that was built. */
  lemma HeaderDataReadsBack(p: Primitives, sender: KeyPair, recipients: seq<Id>, fileInfo: FileInfoRecord,
                            rand: Randomness)
    requires p.TextCodingLawful() && p.JsonLawful() && |rand.nonces| == |recipients|
    requires HeaderData(p, sender, recipients, fileInfo, rand).Some?
    ensures var text := p.utf8Decode(HeaderData(p, sender, recipients, fileInfo, rand).value);
      text.Some? && p.headerFromJson(text.value) == Header.Build(p, sender, recipients, fileInfo, rand.nonces, rand.ephemeralKey)
  {
    var h := Header.Build(p, sender, recipients, fileInfo, rand.nonces, rand.ephemeralKey).value;
    var json := p.headerToJson(h).value;
    assert HeaderData(p, sender, recipients, fileInfo, rand) == Some(p.utf8Encode(Text.StripSlashEscapes(json)));
  }


  /** The writes after the payload is encrypted: the magic bytes, the header length as 4
      little-endian bytes (the size truncated to 32 bits), the header and the payload; a header
      that cannot be built is `couldNotConstructHeader`. */
  function Seal(p: Primitives, sender: KeyPair, recipients: seq<Id>, fileInfo: FileInfoRecord,
                rand: Randomness, payload: Bytes): (r: Result<Bytes, Failure>)
    requires |rand.nonces| == |recipients|
    ensures r.Failure? <==> HeaderData(p, sender, recipients, fileInfo, rand).None?
    ensures r.Failure? ==> r.error == MiniLock(CouldNotConstructHeader)
    ensures r.Success? ==> IsEncryptedFile(true, r.value) == Success(true)
    ensures r.Success? ==> exists headerData :: r.value == Layout(headerData, payload)
  {
    match HeaderData(p, sender, recipients, fileInfo, rand)
    case None => Failure(MiniLock(CouldNotConstructHeader))
    case Some(headerData) =>
      IsEncryptedFileAgrees(p, headerData, payload, []);
      Success(Layout(headerData, payload))
  }

  /** The header's file info: the stream's key and file nonce and its final ciphertext hash. */
  function FileInfoOf(p: Primitives, rand: Randomness, final: StreamState): FileInfoRecord {
    Header.MakeFileInfo(p, rand.key, rand.fileNonce, final.cipherTextHash)
  }

  /** `encrypt(_:destinationFileURL:sender:recipients:)`: empty recipients or empty data are
      both `recepientListEmpty`; a destination or temporary file that cannot be created is
      `couldNotCreateFile`; the name block is 256 zero bytes. */
  function EncryptData(p: Primitives, data: Bytes, sender: KeyPair, recipients: seq<Id>,
                       created: bool, tempCreated: bool, rand: Randomness): (r: Result<Bytes, Failure>)
    requires p.StreamLawful() && Drawn(rand, recipients)
    ensures r == Failure(MiniLock(RecepientListEmpty)) <==> |recipients| == 0 || |data| == 0
    ensures |recipients| > 0 && |data| > 0 && (!created || !tempCreated) ==> r == Failure(MiniLock(CouldNotCreateFile))
    ensures r.Failure? && |recipients| > 0 && |data| > 0 && created && tempCreated ==>
      r.error == MiniLock(CouldNotConstructHeader)
    ensures r.Success? ==> IsEncryptedFile(true, r.value) == Success(true)
  {
    if |recipients| == 0 || |data| == 0 then Failure(MiniLock(RecepientListEmpty))
    else if !created || !tempCreated then Failure(MiniLock(CouldNotCreateFile))
    else
      var s := Start(rand);
      ChunksValid(data);
      match Encrypt(s, Zeros(FileNameMaxLength + 1), false, p)
      case Failure(e) => Failure(Crypto(e))
      case Success(named) =>
        EncryptAllSucceeds(named.state, Chunks(data), p);
        match EncryptAll(named.state, Chunks(data), p)
        case Failure(e) => Failure(Crypto(e))
        case Success(run) =>
          Seal(p, sender, recipients, FileInfoOf(p, rand, run.state), rand, Concat([named.output] + run.outputs))
  }

  /** A `FileEncryptor` once initialised: the source file's name, the padded name block, the
      sender and the recipients. */
  datatype Job = Job(fileName: string, paddedFileName: Bytes, sender: KeyPair, recipients: seq<Id>)

  /** `init(fileURL:sender:recipients:)`: the URL must be a file URL, its last path component
      must not be empty, and there must be a recipient, checked in that order. */
  function NewJob(p: Primitives, isFileUrl: bool, fileName: string, sender: KeyPair, recipients: seq<Id>)
    : (r: Result<Job, Failure>)
    ensures !isFileUrl <==> r == Failure(MiniLock(NotAFileURL))
    ensures isFileUrl ==> (r == Failure(MiniLock(FileNameEmpty)) <==> fileName == "")
    ensures isFileUrl && fileName != "" ==> (r == Failure(MiniLock(RecepientListEmpty)) <==> |recipients| == 0)
    ensures r.Success? ==> r.value == Job(fileName, PaddedFileName(p, fileName), sender, recipients)
  {
    if !isFileUrl then Failure(MiniLock(NotAFileURL))
    else if fileName == "" then Failure(MiniLock(FileNameEmpty))
    else if |recipients| == 0 then Failure(MiniLock(RecepientListEmpty))
    else Success(Job(fileName, PaddedFileName(p, fileName), sender, recipients))
  }

  /** The encrypted file: the name it was saved under and its bytes. */
  datatype Written = Written(name: FileNames.Path, container: Bytes)

  /** The name the encrypted file is saved under before it is made unique: the suggested one, or
      the source name with ".miniLock" appended. */
  function DestinationName(job: Job, suggested: Option<string>): (r: string)
    ensures suggested.Some? ==> r == suggested.value
    ensures suggested.None? && job.fileName != "" ==> FileNames.SplitExtension(r) == (job.fileName, FileExtension)
  {
    if suggested.Some? then suggested.value
    else
      var front := job.fileName + ".";
      assert forall j :: 0 <= j < |FileExtension| ==> FileExtension[j] != '.';
      Text.LastIndexOfAppend(front, FileExtension, '.');
      var r := job.fileName + "." + FileExtension;
      assert r == front + FileExtension;
      assert r[..|job.fileName|] == job.fileName && r[|job.fileName| + 1..] == FileExtension;
      r
  }

  /** `encrypt(destinationDirectory:filename:deleteSourceFile:)`: a fresh name in the
      directory `dir` (`created` whether the file can be created), the temporary
      payload file (`tempCreated`), the padded name block flagged not last, `sourceFileEmpty`
      for an empty source, then the chunks and the container. */
  function EncryptToDirectory(p: Primitives, job: Job, suggested: Option<string>, dir: FileNames.Directory,
                              created: bool, tempCreated: bool, source: Bytes, rand: Randomness)
    : (r: Result<Written, Failure>)
    requires p.StreamLawful() && Drawn(rand, job.recipients) && |job.paddedFileName| == FileNameMaxLength + 1
    ensures r.Success? ==> !FileNames.Exists(dir, r.value.name)
    ensures r.Success? ==> r.value.name == FileNames.Attempt(dir, DestinationName(job, suggested),
      FileNames.FirstFree(dir, DestinationName(job, suggested)))
    ensures r.Success? && DestinationName(job, suggested) != "" && DestinationName(job, suggested) !in dir.entries ==>
      r.value.name == FileNames.Path(false, DestinationName(job, suggested))
    ensures r.Success? && DestinationName(job, suggested) == "" ==> r.value.name.inParent
    ensures !created ==> r == Failure(MiniLock(CouldNotCreateFile))
    ensures created && !tempCreated ==> r == Failure(MiniLock(CouldNotCreateFile))
    ensures created && tempCreated && |source| == 0 ==> r == Failure(MiniLock(SourceFileEmpty))
    ensures r.Failure? && created && tempCreated && |source| > 0 ==> r.error == MiniLock(CouldNotConstructHeader)
    ensures r.Success? ==> IsEncryptedFile(true, r.value.container) == Success(true)
  {
    match FileNames.NewFile(dir, DestinationName(job, suggested), created)
    case Failure(e) => Failure(e)
    case Success(destination) =>
      if !tempCreated then Failure(MiniLock(CouldNotCreateFile))
      else
        var s := Start(rand);
        match Encrypt(s, job.paddedFileName, false, p)
        case Failure(e) => Failure(Crypto(e))
        case Success(named) =>
          if |source| == 0 then Failure(MiniLock(SourceFileEmpty))
          else
            ChunksValid(source);
            EncryptAllSucceeds(named.state, Chunks(source), p);
            match EncryptAll(named.state, Chunks(source), p)
            case Failure(e) => Failure(Crypto(e))
            case Success(run) =>
              match Seal(p, job.sender, job.recipients, FileInfoOf(p, rand, run.state), rand,
                         Concat([named.output] + run.outputs))
              case Failure(e) => Failure(e)
              case Success(container) => Success(Written(destination, container))
  }
}
