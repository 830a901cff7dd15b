/** `MiniLock.FileDecryptor`: open the header with the recipient's key pair, build a block
    decryptor from the file key and nonce it yields, then read the payload block by block,
    reading one block ahead so that exactly the final block is decrypted as the last one. */
module Decryptor {
  import opened Wrappers
  import opened Bytes
  import opened FileFormat
  import opened Seqs
  import opened Primitives
  import opened Identity
  import Header
  import opened Stream
  import opened Container
  import FileNames

  /** What `getBlockDecryptor` leaves behind: the block decryptor, the sender's id and the
      payload that follows the header. */
  datatype Opened = Opened(decryptor: StreamState, sender: Id, payload: Bytes)

  /** The plaintext of an in-memory decryption and the sender it came from. */
  datatype Decrypted = Decrypted(sender: Id, data: Bytes)

  /** The outcome of a decryption to a directory: the sender, the name the plaintext was saved
      under and the plaintext written there. */
  datatype Saved = Saved(sender: Id, name: FileNames.Path, data: Bytes)

  /** `init(sourceFile:recipientKeys:)`: the error it throws, if any. The URL must be a file URL
      and its last path component must not be empty, checked in that order; the file size it
      reads only feeds the progress reports. */
  function SourceError(isFileUrl: bool, fileName: string): (r: Option<MiniLockError>)
    ensures r == Some(NotAFileURL) <==> !isFileUrl
    ensures r == Some(FileNameEmpty) <==> isFileUrl && fileName == ""
    ensures r.None? <==> isFileUrl && fileName != ""
  {
    if !isFileUrl then Some(NotAFileURL)
    else if fileName == "" then Some(FileNameEmpty)
    else None
  }

  /** The header checks after the preamble: a header that does not parse is corrupt; one whose
      entries do not open for the key pair, or whose file info does not, means the key pair is
      not a recipient; a file key or nonce that is not Base64 is corrupt again; a key or nonce of
      the wrong size is the block decryptor's `inputSizeInvalid`. */
  function GetBlockDecryptor(p: Primitives, file: Bytes, kp: KeyPair): (r: Result<Opened, Failure>)
    ensures ParsePreamble(p, file).Failure? ==> r == Failure(MiniLock(CorruptMiniLockFile))
    ensures r.Success? ==> ParsePreamble(p, file).Success? && r.value.payload == ParsePreamble(p, file).value.payload
    ensures r.Success? ==> (r.value.decryptor.status == Incomplete && Counter(r.value.decryptor.fullNonce) == 0
      && r.value.decryptor.hashed == [])
    ensures r == Failure(MiniLock(NotARecipient)) <==>
      && ParsePreamble(p, file).Success?
      && p.headerFromJson(ParsePreamble(p, file).value.headerText).Some?
      && (|| Header.DecryptDecryptInfo(p, p.headerFromJson(ParsePreamble(p, file).value.headerText).value, kp).None?
          || Header.DecryptFileInfo(p, Header.DecryptDecryptInfo(p, p.headerFromJson(ParsePreamble(p, file).value.headerText).value, kp).value, kp).None?)
  {
    match ParsePreamble(p, file)
    case Failure(e) => Failure(e)
    case Success(preamble) =>
      match p.headerFromJson(preamble.headerText)
      case None => Failure(MiniLock(CorruptMiniLockFile))
      case Some(h) =>
        match Header.DecryptDecryptInfo(p, h, kp)
        case None => Failure(MiniLock(NotARecipient))
        case Some(info) =>
          match Header.DecryptFileInfo(p, info, kp)
          case None => Failure(MiniLock(NotARecipient))
          case Some(fileInfo) =>
            if p.base64Decode(fileInfo.key).None? || p.base64Decode(fileInfo.nonce).None? then
              Failure(MiniLock(CorruptMiniLockFile))
            else
              match Stream.Init(p.base64Decode(fileInfo.key).value, p.base64Decode(fileInfo.nonce).value)
              case Failure(e) => Failure(Crypto(e))
              case Success(decryptor) => Success(Opened(decryptor, info.senderId, preamble.payload))
  }

  /** A file whose preamble, header, entry and file info all open yields the block decryptor
      for the file key and nonce, the entry's sender and the payload. */
  lemma GetBlockDecryptorOf(p: Primitives, file: Bytes, kp: KeyPair, preamble: Preamble, h: HeaderRecord,
                            info: Header.DecryptInfo, fileInfo: FileInfoRecord, key: Bytes, nonce: Bytes)
    requires ParsePreamble(p, file) == Success(preamble)
    requires p.headerFromJson(preamble.headerText) == Some(h)
    requires Header.DecryptDecryptInfo(p, h, kp) == Some(info)
    requires Header.DecryptFileInfo(p, info, kp) == Some(fileInfo)
    requires p.base64Decode(fileInfo.key) == Some(key) && p.base64Decode(fileInfo.nonce) == Some(nonce)
    requires Stream.Init(key, nonce).Success?
    ensures GetBlockDecryptor(p, file, kp) == Success(Opened(Stream.Init(key, nonce).value, info.senderId, preamble.payload))
  {
  }

  /** `out` in front of a successful result. */
  function Prepend(out: Bytes, r: Result<Bytes, Failure>): Result<Bytes, Failure> {
    match r
    case Failure(e) => Failure(e)
    case Success(rest) => Success(out + rest)
  }

  /** Putting `b` and then `a` in front is putting `a + b` in front. */
  lemma PrependPrepend(a: Bytes, b: Bytes, r: Result<Bytes, Failure>)
    ensures Prepend(a, Prepend(b, r)) == Prepend(a + b, r)
  {
    if r.Success? {
      assert a + (b + r.value) == (a + b) + r.value;
    }
  }

  /** The read-ahead loop of both `decrypt` methods, from a non-empty current block: read the
      next block, then decrypt the current one, as the last exactly when nothing follows it. A
      read error therefore comes before the decryption error of the block in front of it. */
  function ReadAhead(s: StreamState, current: Bytes, rest: Bytes, p: Primitives): Result<Bytes, Failure>
    requires p.StreamLawful() && |current| > 0
    decreases |rest|
  {
    match ReadNextBlock(rest)
    case Failure(e) => Failure(e)
    case Success(next) =>
      match Stream.Decrypt(s, current, |next.block| == 0, p)
      case Failure(e) => Failure(Crypto(e))
      case Success(step) =>
        if |next.block| == 0 then Success(step.output)
        else Prepend(step.output, ReadAhead(step.state, next.block, next.rest, p))
  }

  lemma PrependNothing(r: Result<Bytes, Failure>)
    ensures Prepend([], r) == r
  {
    if r.Success? {
      assert [] + r.value == r.value;
    }
  }

  /** A run of block decryptions seen from the file level: a stream error is passed through,
      and the plaintext is the decrypted blocks in order. */
  function Plain(r: Result<Run, CryptoError>): Result<Bytes, Failure> {
    match r
    case Failure(e) => Failure(Crypto(e))
    case Success(run) => Success(Concat(run.outputs))
  }

  /** When the rest of the payload is well framed, the read-ahead loop decrypts the current
      block and every following one once, in order, with only the final one flagged last, and
      returns their plaintexts joined together. */
  lemma {:induction false} ReadAheadDecryptAll(s: StreamState, current: Bytes, rest: Bytes, frames: seq<Bytes>, p: Primitives)
    requires p.StreamLawful() && |current| > 0
    requires ParseFrames(rest) == Success(frames)
    ensures ReadAhead(s, current, rest, p) == Plain(DecryptAll(s, [current] + frames, p))
    decreases |rest|
  {
    var all := [current] + frames;
    assert all[0] == current && all[1..] == frames;
    var next := ReadNextBlock(rest).value;
    if |frames| == 0 {
      assert rest == [] && next.block == [];
      match Stream.Decrypt(s, current, true, p) {
        case Failure(e) =>
          assert DecryptAll(s, all, p) == Failure(e);
          assert ReadAhead(s, current, rest, p) == Failure(Crypto(e));
          assert ReadAhead(s, current, rest, p) == Plain(DecryptAll(s, all, p));
        case Success(step) =>
          assert ReadAhead(s, current, rest, p) == Success(step.output);
          assert DecryptAll(step.state, all[1..], p) == Success(Run(step.state, []));
          assert DecryptAll(s, all, p) == Success(Run(step.state, [step.output] + []));
          assert [step.output] + [] == [step.output];
          assert Concat([step.output]) == step.output by {
            assert [step.output][1..] == [];
            assert step.output + [] == step.output;
          }
          assert ReadAhead(s, current, rest, p) == Plain(DecryptAll(s, all, p));
      }
    } else {
      assert next.block == frames[0] && |next.block| > 0;
      assert ParseFrames(next.rest) == Success(frames[1..]);
      match Stream.Decrypt(s, current, false, p) {
        case Failure(e) =>
          assert DecryptAll(s, all, p) == Failure(e);
          assert ReadAhead(s, current, rest, p) == Failure(Crypto(e));
          assert ReadAhead(s, current, rest, p) == Plain(DecryptAll(s, all, p));
        case Success(step) =>
          assert ReadAhead(s, current, rest, p) == Prepend(step.output, ReadAhead(step.state, next.block, next.rest, p));
          ReadAheadDecryptAll(step.state, next.block, next.rest, frames[1..], p);
          assert [next.block] + frames[1..] == frames;
          match DecryptAll(step.state, frames, p) {
            case Failure(e) =>
              assert DecryptAll(s, all, p) == Failure(e);
              assert ReadAhead(s, current, rest, p) == Plain(DecryptAll(s, all, p));
            case Success(run) =>
              assert DecryptAll(s, all, p) == Success(Run(run.state, [step.output] + run.outputs));
              assert Concat([step.output] + run.outputs) == step.output + Concat(run.outputs) by {
                assert ([step.output] + run.outputs)[1..] == run.outputs;
              }
              assert ReadAhead(s, current, rest, p) == Plain(DecryptAll(s, all, p));
          }
      }
    }
  }

  /** A payload that is not well framed after the current block always makes the loop fail. */
  lemma {:induction false} ReadAheadFails(s: StreamState, current: Bytes, rest: Bytes, p: Primitives)
    requires p.StreamLawful() && |current| > 0
    requires ParseFrames(rest).Failure?
    ensures ReadAhead(s, current, rest, p).Failure?
    decreases |rest|
  {
    match ReadNextBlock(rest)
    case Failure(e) =>
    case Success(next) =>
      assert |next.block| > 0 && ParseFrames(next.rest).Failure?;
      match Stream.Decrypt(s, current, false, p)
      case Failure(e) =>
      case Success(step) =>
        ReadAheadFails(step.state, next.block, next.rest, p);
  }

  /** The read-ahead `while` loop itself, with the decrypted plaintext appended block by block. */
  method ReadAheadLoop(s: StreamState, current: Bytes, rest: Bytes, p: Primitives) returns (r: Result<Bytes, Failure>)
    requires p.StreamLawful() && |current| > 0
    ensures r == ReadAhead(s, current, rest, p)
  {
    var decrypted: Bytes := [];
    var state, currentBlock, remaining := s, current, rest;
    PrependNothing(ReadAhead(s, current, rest, p));
    while |currentBlock| > 0
      invariant |currentBlock| > 0 ==> ReadAhead(s, current, rest, p) == Prepend(decrypted, ReadAhead(state, currentBlock, remaining, p))
      invariant |currentBlock| == 0 ==> ReadAhead(s, current, rest, p) == Success(decrypted)
      decreases |remaining| + |currentBlock|
    {
      var read := ReadNextBlock(remaining);
      if read.Failure? {
        return Failure(read.error);
      }
      var next := read.value;
      var step := Stream.Decrypt(state, currentBlock, |next.block| == 0, p);
      if step.Failure? {
        return Failure(Crypto(step.error));
      }
      ReadAheadStep(decrypted, state, currentBlock, remaining, p);
      decrypted := decrypted + step.value.output;
      state, currentBlock, remaining := step.value.state, next.block, next.rest;
    }
    return Success(decrypted);
  }

  /** One round of the loop: the block read ahead and the decrypted current block. */
  lemma ReadAheadStep(decrypted: Bytes, s: StreamState, current: Bytes, rest: Bytes, p: Primitives)
    requires p.StreamLawful() && |current| > 0
    ensures ReadNextBlock(rest).Failure? ==> Prepend(decrypted, ReadAhead(s, current, rest, p)) == Failure(ReadNextBlock(rest).error)
    ensures ReadNextBlock(rest).Success? ==>
      var next := ReadNextBlock(rest).value;
      match Stream.Decrypt(s, current, |next.block| == 0, p)
      case Failure(e) => Prepend(decrypted, ReadAhead(s, current, rest, p)) == Failure(Crypto(e))
      case Success(step) =>
        Prepend(decrypted, ReadAhead(s, current, rest, p))
          == if |next.block| == 0 then Success(decrypted + step.output)
             else Prepend(decrypted + step.output, ReadAhead(step.state, next.block, next.rest, p))
  {
    if ReadNextBlock(rest).Success? {
      var next := ReadNextBlock(rest).value;
      match Stream.Decrypt(s, current, |next.block| == 0, p) {
        case Failure(e) =>
        case Success(step) =>
          if |next.block| > 0 {
            var tail := ReadAhead(step.state, next.block, next.rest, p);
            assert ReadAhead(s, current, rest, p) == Prepend(step.output, tail);
            PrependPrepend(decrypted, step.output, tail);
          }
      }
    }
  }

  /** What both `decrypt` methods do after the first block: read the next block, which must
      exist or the file is corrupt, and run the read-ahead loop from it. */
  function Remainder(s: StreamState, rest: Bytes, p: Primitives): Result<Bytes, Failure>
    requires p.StreamLawful()
  {
    match ReadNextBlock(rest)
    case Failure(e) => Failure(e)
    case Success(current) =>
      if |current.block| == 0 then Failure(MiniLock(CorruptMiniLockFile))
      else ReadAhead(s, current.block, current.rest, p)
  }

  /** After the first block, a well-framed remainder of at least one block is decrypted block by
      block in order; an empty remainder is corrupt and a badly framed one fails. */
  lemma RemainderFrames(s: StreamState, rest: Bytes, p: Primitives)
    requires p.StreamLawful()
    ensures ParseFrames(rest).Failure? ==> Remainder(s, rest, p).Failure?
    ensures ParseFrames(rest) == Success([]) ==> Remainder(s, rest, p) == Failure(MiniLock(CorruptMiniLockFile))
    ensures ParseFrames(rest).Success? && |ParseFrames(rest).value| > 0 ==>
      Remainder(s, rest, p) == Plain(DecryptAll(s, ParseFrames(rest).value, p))
  {
    match ReadNextBlock(rest)
    case Failure(e) =>
    case Success(current) =>
      if |current.block| > 0 {
        match ParseFrames(current.rest)
        case Failure(_) =>
          ReadAheadFails(s, current.block, current.rest, p);
        case Success(frames) =>
          ReadAheadDecryptAll(s, current.block, current.rest, frames, p);
      }
  }

  /** `decrypt(deleteSourceFile:)`: the first block (the file name) is decrypted as not the
      last and then ignored; an empty payload after it is corrupt; the rest goes through the
      read-ahead loop. The `processAlreadyComplete` guard never fires, since the decryptor's
      status is never advanced. */
  function DecryptInMemory(p: Primitives, file: Bytes, kp: KeyPair): (r: Result<Decrypted, Failure>)
    requires p.StreamLawful()
    ensures GetBlockDecryptor(p, file, kp).Failure? ==> r == Failure(GetBlockDecryptor(p, file, kp).error)
    ensures r.Success? ==> r.value.sender == GetBlockDecryptor(p, file, kp).value.sender
  {
    match GetBlockDecryptor(p, file, kp)
    case Failure(e) => Failure(e)
    case Success(ready) =>
      match ReadNextBlock(ready.payload)
      case Failure(e) => Failure(e)
      case Success(first) =>
        match Stream.Decrypt(ready.decryptor, first.block, false, p)
        case Failure(e) => Failure(Crypto(e))
        case Success(named) =>
          match Remainder(named.state, first.rest, p)
          case Failure(e) => Failure(e)
          case Success(data) => Success(Decrypted(ready.sender, data))
  }

  /** The plaintext of a well-framed payload of at least two blocks is the decryption of every
      block but the first, joined; the blocks are decrypted in order with only the final one
      flagged last, and the first stream error is the error. A payload of fewer than two
      blocks, or one that is not well framed, fails. */
  lemma DecryptInMemoryFrames(p: Primitives, file: Bytes, kp: KeyPair)
    requires p.StreamLawful() && GetBlockDecryptor(p, file, kp).Success?
    ensures var ready := GetBlockDecryptor(p, file, kp).value;
      match ParseFrames(ready.payload)
      case Failure(_) => DecryptInMemory(p, file, kp).Failure?
      case Success(frames) =>
        if |frames| < 2 then DecryptInMemory(p, file, kp).Failure?
        else
          match DecryptAll(ready.decryptor, frames, p)
          case Failure(e) => DecryptInMemory(p, file, kp) == Failure(Crypto(e))
          case Success(run) => DecryptInMemory(p, file, kp) == Success(Decrypted(ready.sender, Concat(run.outputs[1..])))
  {
    var ready := GetBlockDecryptor(p, file, kp).value;
    match ReadNextBlock(ready.payload)
    case Failure(e) =>
    case Success(first) =>
      if |first.block| == 0 {
        assert ParseFrames(ready.payload) == Success([]);
      } else {
        match ParseFrames(first.rest)
        case Failure(_) =>
          FirstThenRemainder(ready.decryptor, first.block, first.rest, [], p);
        case Success(rest) =>
          var all := [first.block] + rest;
          assert ParseFrames(ready.payload) == Success(all);
          FirstThenRemainder(ready.decryptor, first.block, first.rest, rest, p);
      }
  }

  /** The first block decrypted as not the last, then the remainder. */
  function FirstThen(s: StreamState, first: Bytes, rest: Bytes, p: Primitives): Result<Bytes, Failure>
    requires p.StreamLawful()
  {
    match Stream.Decrypt(s, first, false, p)
    case Failure(e) => Failure(Crypto(e))
    case Success(named) => Remainder(named.state, rest, p)
  }

  /** The first block decrypted, then the remainder: the joined plaintext of every block but
      the first, when the remainder is well framed and not empty. */
  lemma FirstThenRemainder(s: StreamState, first: Bytes, rest: Bytes, frames: seq<Bytes>, p: Primitives)
    requires p.StreamLawful()
    ensures ParseFrames(rest).Failure? ==> FirstThen(s, first, rest, p).Failure?
    ensures ParseFrames(rest) == Success(frames) && |frames| == 0 ==> FirstThen(s, first, rest, p).Failure?
    ensures ParseFrames(rest) == Success(frames) && |frames| > 0 ==>
      FirstThen(s, first, rest, p) == match DecryptAll(s, [first] + frames, p)
        case Failure(e) => Failure(Crypto(e))
        case Success(run) => Success(Concat(run.outputs[1..]))
  {
    var all := [first] + frames;
    assert all[0] == first && all[1..] == frames;
    match Stream.Decrypt(s, first, false, p)
    case Failure(e) =>
    case Success(named) =>
      RemainderFrames(named.state, rest, p);
      if ParseFrames(rest) == Success(frames) && |frames| > 0 {
        match DecryptAll(named.state, frames, p)
        case Failure(e) =>
        case Success(run) =>
          assert DecryptAll(s, all, p) == Success(Run(run.state, [named.output] + run.outputs));
          assert ([named.output] + run.outputs)[1..] == run.outputs;
      }
  }

  /** The bytes of a C string: everything before the first NUL byte, or the whole block when
      it has none. */
  function UntilNul(b: Bytes): (r: Bytes)
    ensures |r| <= |b| && r == b[..|r|] && 0 !in r
    ensures |r| < |b| ==> b[|r|] == 0
  {
    if |b| == 0 || b[0] == 0 then [] else [b[0]] + UntilNul(b[1..])
  }

  /** Bytes without a NUL followed by a NUL are read back as they were. */
  lemma {:induction false} UntilNulOf(b: Bytes, u: Bytes)
    requires |u| < |b| && b[..|u|] == u && 0 !in u && b[|u|] == 0
    ensures UntilNul(b) == u
  {
    if |u| > 0 {
      assert b[0] == u[0];
      assert b[1..][..|u| - 1] == u[1..];
      UntilNulOf(b[1..], u[1..]);
      assert u == [u[0]] + u[1..];
    }
  }

  /** `String(cString:encoding: .utf8)` on the decrypted first block: the name embedded by the
      encryptor, if its bytes up to the first NUL are UTF-8. A block without a NUL would be read
      past its end; the model treats it as a name that cannot be decoded. */
  function EmbeddedName(p: Primitives, block: Bytes): (r: Option<string>)
    ensures 0 !in block ==> r.None?
    ensures r.Some? ==> var k := |UntilNul(block)|;
      k < |block| && block[k] == 0 && 0 !in block[..k] && r == p.utf8Decode(block[..k])
  {
    if 0 in block then p.utf8Decode(UntilNul(block)) else None
  }

  /** The name the plaintext is saved under before it is made unique: the suggested one unless
      none or an empty one is given, else the name embedded in the decrypted first block. */
  function Basename(p: Primitives, suggested: Option<string>, nameBlock: Bytes): (r: Option<string>)
    ensures suggested.Some? && suggested.value != "" ==> r == suggested
    ensures (suggested.None? || suggested.value == "") && r.Some? ==> 0 in nameBlock
    ensures (suggested.None? || suggested.value == "") ==>
      (r.Some? <==> 0 in nameBlock && p.utf8Decode(UntilNul(nameBlock)).Some?)
  {
    if suggested.None? || suggested.value == "" then EmbeddedName(p, nameBlock) else suggested
  }

  /** The decrypted first block of the payload, which carries the file name. */
  function NameBlock(p: Primitives, file: Bytes, kp: KeyPair): Option<Bytes>
    requires p.StreamLawful()
  {
    match GetBlockDecryptor(p, file, kp)
    case Failure(_) => None
    case Success(ready) =>
      match ReadNextBlock(ready.payload)
      case Failure(_) => None
      case Success(first) =>
        match Stream.Decrypt(ready.decryptor, first.block, false, p)
        case Failure(_) => None
        case Success(named) => Some(named.output)
  }

  /** `decrypt(destinationDirectory:filename:deleteSourceFile:)`: the plaintext is saved under
      the suggested name, or under the name embedded in the first block when none (or an empty
      one) is suggested, made unique in the directory `dir` (`created` whether the
      file can be created). The name is settled before any content block is read. */
  function DecryptToDirectory(p: Primitives, file: Bytes, kp: KeyPair, suggested: Option<string>,
                              dir: FileNames.Directory, created: bool): (r: Result<Saved, Failure>)
    requires p.StreamLawful()
    ensures GetBlockDecryptor(p, file, kp).Failure? ==> r == Failure(GetBlockDecryptor(p, file, kp).error)
    ensures r.Success? ==> !FileNames.Exists(dir, r.value.name) && r.value.sender == GetBlockDecryptor(p, file, kp).value.sender
    ensures r.Success? && suggested.Some? && suggested.value != "" && suggested.value !in dir.entries ==>
      r.value.name == FileNames.Path(false, suggested.value)
  {
    match GetBlockDecryptor(p, file, kp)
    case Failure(e) => Failure(e)
    case Success(ready) =>
      match ReadNextBlock(ready.payload)
      case Failure(e) => Failure(e)
      case Success(first) =>
        match Stream.Decrypt(ready.decryptor, first.block, false, p)
        case Failure(e) => Failure(Crypto(e))
        case Success(named) =>
          match Basename(p, suggested, named.output)
          case None => Failure(MiniLock(CouldNotDecodeFileName))
          case Some(name) =>
            match FileNames.NewFile(dir, name, created)
            case Failure(e) => Failure(e)
            case Success(destination) =>
              match Remainder(named.state, first.rest, p)
              case Failure(e) => Failure(e)
              case Success(data) => Success(Saved(ready.sender, destination, data))
  }

  /** Saving to a directory and decrypting in memory agree on the plaintext and the sender
      whenever both succeed; an in-memory failure that is not about the name or the new file
      is also a failure when saving. */
  lemma DecryptToDirectoryAgrees(p: Primitives, file: Bytes, kp: KeyPair, suggested: Option<string>,
                                 dir: FileNames.Directory, created: bool)
    requires p.StreamLawful()
    ensures DecryptToDirectory(p, file, kp, suggested, dir, created).Success? ==>
      && DecryptInMemory(p, file, kp).Success?
      && DecryptInMemory(p, file, kp).value.data == DecryptToDirectory(p, file, kp, suggested, dir, created).value.data
      && DecryptInMemory(p, file, kp).value.sender == DecryptToDirectory(p, file, kp, suggested, dir, created).value.sender
    ensures DecryptInMemory(p, file, kp).Failure? ==> DecryptToDirectory(p, file, kp, suggested, dir, created).Failure?
  {
  }

  /** When the contents decrypt in memory, saving to a directory that accepts the new file
      gives the same sender and plaintext, under the name settled from the first block. */
  lemma DecryptToDirectoryOf(p: Primitives, file: Bytes, kp: KeyPair, suggested: Option<string>, dir: FileNames.Directory,
                              mem: Decrypted)
    requires p.StreamLawful() && DecryptInMemory(p, file, kp) == Success(mem)
    ensures NameBlock(p, file, kp).Some?
    ensures Basename(p, suggested, NameBlock(p, file, kp).value).Some? ==>
      DecryptToDirectory(p, file, kp, suggested, dir, true)
        == Success(Saved(mem.sender, FileNames.NewFile(dir, Basename(p, suggested, NameBlock(p, file, kp).value).value, true).value,
                         mem.data))
  {
    var ready := GetBlockDecryptor(p, file, kp).value;
    var first := ReadNextBlock(ready.payload).value;
    var named := Stream.Decrypt(ready.decryptor, first.block, false, p).value;
    assert Remainder(named.state, first.rest, p) == Success(mem.data) && ready.sender == mem.sender;
    assert NameBlock(p, file, kp) == Some(named.output);
  }
}
