/** The block stream of a miniLock payload (`StreamCryptoBase`, `StreamEncryptor`, and the
    decryptor that mirrors it): a 24-byte nonce made of the 16-byte file nonce and an 8-byte
    little-endian block counter, the length-tagged secretbox framing of each block, the running
    BLAKE2s input, and the `incomplete → succeeded` status flip on the block flagged last. */
module Stream {
  import opened Wrappers
  import opened Bytes
  import opened FileFormat
  import opened Primitives
  import opened Seqs

  /** 2^63: the top bit of the block counter, set in the nonce of the last block. */
  const LastBlockBit: nat := 0x8000_0000_0000_0000

  /** 2^64: the block counter is 8 bytes wide. */
  const CounterModulus: nat := 0x1_0000_0000_0000_0000

  type Key = b: Bytes | |b| == SecretBoxKeyBytes witness Zeros(32)

  type Nonce = b: Bytes | |b| == SecretBoxNonceBytes witness Zeros(24)

  type Digest = b: Bytes | |b| == Blake2sOutputLength witness Zeros(32)

  /** The state a `StreamEncryptor` or `StreamDecryptor` keeps between blocks. `hashed` is
      everything fed to the BLAKE2s state so far; `cipherTextHash` is its digest once the last
      block is through and 32 zero bytes before. */
  datatype StreamState = StreamState(
    key: Key,
    fullNonce: Nonce,
    status: ProcessStatus,
    hashed: Bytes,
    cipherTextHash: Digest)

  /** The output of one block: the next state and the framed (or decrypted) block. */
  datatype Step = Step(state: StreamState, output: Bytes)

  /** The output of a whole run: the final state and one output per input block. */
  datatype Run = Run(state: StreamState, outputs: seq<Bytes>)

  /** The block counter: bytes 16 to 23 of the nonce, little-endian. */
  function Counter(n: Nonce): nat {
    FromLE(n[FileNonceBytes..])
  }

  /** `fileNonce`: the first 16 bytes of the full nonce. */
  function FileNonce(s: StreamState): (r: Bytes)
    ensures |r| == FileNonceBytes
  {
    s.fullNonce[..FileNonceBytes]
  }

  /** A nonce is its file nonce followed by its counter. */
  lemma NonceOfCounter(n: Nonce)
    ensures n == n[..FileNonceBytes] + ToLE(Counter(n), 8)
  {
    ToFromLE(n[FileNonceBytes..]);
  }

  /** The nonce with file nonce `fileNonce` and block counter `counter`. */
  function CounterNonce(fileNonce: Bytes, counter: nat): (r: Bytes)
    requires |fileNonce| == FileNonceBytes
    ensures |r| == SecretBoxNonceBytes
  {
    fileNonce + ToLE(counter, 8)
  }

  /** `init(key:fileNonce:)`: a 32-byte key and a 16-byte file nonce are required; the counter
      starts at zero, nothing is hashed yet and the status is `incomplete`. */
  function Init(key: Bytes, fileNonce: Bytes): (r: Result<StreamState, CryptoError>)
    ensures r.Success? <==> |key| == SecretBoxKeyBytes && |fileNonce| == FileNonceBytes
    ensures r.Failure? ==> r.error == InputSizeInvalid
    ensures r.Success? ==>
      && r.value.key == key
      && FileNonce(r.value) == fileNonce
      && Counter(r.value.fullNonce) == 0
      && r.value.status == Incomplete
      && r.value.hashed == []
  {
    if |key| != SecretBoxKeyBytes || |fileNonce| != FileNonceBytes then Failure(InputSizeInvalid)
    else
      var n := fileNonce + Zeros(SecretBoxNonceBytes - FileNonceBytes);
      assert n[FileNonceBytes..] == Zeros(8);
      FromLEZeros(8);
      Success(StreamState(key, n, Incomplete, [], Zeros(Blake2sOutputLength)))
  }

  /** `(a * c) % (a * m) == a * (c % m)`. */
  lemma MulMod(a: nat, c: nat, m: nat)
    requires a > 0 && m > 0
    ensures (a * c) % (a * m) == a * (c % m)
  {
    var q, r := c / m, c % m;
    assert a * c == (a * m) * q + a * r by {
      assert c == m * q + r;
    }
    assert a * r < a * m by {
      assert a * (m - r) > 0;
    }
    DivModUnique(a * c, a * m, q, a * r);
  }

  /** The loop of `incrementNonce` over the counter bytes, least significant first: add one to
      a byte and stop unless it wrapped round to 0, in which case carry into the next byte;
      nothing is carried out of the last byte. */
  function Increment(c: Bytes): (r: Bytes)
    ensures |r| == |c|
    ensures FromLE(r) == (FromLE(c) + 1) % Pow256(|c|)
  {
    if |c| == 0 then []
    else
      var x, y, m := FromLE(c), FromLE(c[1..]), Pow256(|c| - 1);
      assert x == c[0] + 256 * y;
      assert Pow256(|c|) == 256 * m;
      if c[0] < 255 then
        var r := [c[0] + 1] + c[1..];
        assert r[1..] == c[1..];
        assert FromLE(r) == x + 1;
        assert x + 1 < 256 * m by {
          assert y <= m - 1;
        }
        ModSmall(x + 1, 256 * m);
        r
      else
        var rest := Increment(c[1..]);
        var r := [0] + rest;
        assert r[1..] == rest;
        assert FromLE(r) == 256 * ((y + 1) % m);
        assert x + 1 == 256 * (y + 1);
        MulMod(256, y + 1, m);
        assert FromLE(r) == (x + 1) % (256 * m);
        r
  }

  /** `incrementNonce`: the counter goes up by one modulo 2^64 and the file nonce is kept. */
  function IncrementNonce(n: Nonce): (r: Nonce)
    ensures r[..FileNonceBytes] == n[..FileNonceBytes]
    ensures Counter(r) == (Counter(n) + 1) % CounterModulus
  {
    Pow256Values();
    var r := n[..FileNonceBytes] + Increment(n[FileNonceBytes..]);
    assert r[FileNonceBytes..] == Increment(n[FileNonceBytes..]);
    r
  }

  /** `fullNonce[23] |= 0x80`: the top bit of the counter is set and the other 63 bits kept. */
  function SetLastBlockFlag(n: Nonce): (r: Nonce)
    ensures r[..FileNonceBytes] == n[..FileNonceBytes]
    ensures Counter(r) == Counter(n) % LastBlockBit + LastBlockBit
  {
    var top: int := n[SecretBoxNonceBytes - 1];
    var r := n[SecretBoxNonceBytes - 1 := if top >= 0x80 then top else top + 0x80];
    FlagCounter(n, r);
    r
  }

  /** The counter of a nonce whose top byte has had bit 7 set. */
  lemma FlagCounter(n: Nonce, r: Nonce)
    requires r == n[SecretBoxNonceBytes - 1 := if n[SecretBoxNonceBytes - 1] >= 0x80 then n[SecretBoxNonceBytes - 1]
                                               else n[SecretBoxNonceBytes - 1] + 0x80]
    ensures r[..FileNonceBytes] == n[..FileNonceBytes]
    ensures Counter(r) == Counter(n) % LastBlockBit + LastBlockBit
  {
    var top: int := n[SecretBoxNonceBytes - 1];
    var c, c' := n[FileNonceBytes..], r[FileNonceBytes..];
    FromLESplit(c, 7);
    FromLESplit(c', 7);
    assert c'[..7] == c[..7];
    assert c[7..] == [top] && c'[7..] == [r[SecretBoxNonceBytes - 1]];
    Pow256Values();
    FlagArithmetic(FromLE(c[..7]), top);
  }


  /** Setting bit 63 of a counter whose top byte is `top` and whose low 7 bytes read `lo`. */
  lemma FlagArithmetic(lo: int, top: int)
    requires 0 <= lo < 0x100_0000_0000_0000 && 0 <= top < 0x100
    ensures (lo + 0x100_0000_0000_0000 * top) % LastBlockBit + LastBlockBit
      == lo + 0x100_0000_0000_0000 * (if top >= 0x80 then top else top + 0x80)
  {
    DivModUnique(lo + 0x100_0000_0000_0000 * top, LastBlockBit, top / 0x80, lo + 0x100_0000_0000_0000 * (top % 0x80));
  }

  /** The nonce a block is sealed with: the current one, with the top counter bit set for the
      last block. */
  function BlockNonce(s: StreamState, isLast: bool): Nonce {
    if isLast then SetLastBlockFlag(s.fullNonce) else s.fullNonce
  }

  /** The 4-byte little-endian length tag in front of each block. */
  function LengthTag(length: nat): (r: Bytes)
    ensures |r| == BlockSizeTagLength
    ensures length < Pow256(BlockSizeTagLength) ==> FromLE(r) == length
  {
    ToLE(length, BlockSizeTagLength)
  }

  /** The bookkeeping after a block: the counter advances past the block's nonce, the framed
      block is fed to BLAKE2s, and a last block finalizes the hash and completes the process. */
  function Advance(s: StreamState, isLast: bool, framed: Bytes, p: Primitives): (r: StreamState)
    requires p.HashLawful()
    ensures r.key == s.key
  {
    var hashed := s.hashed + framed;
    StreamState(
      s.key,
      IncrementNonce(BlockNonce(s, isLast)),
      if isLast then Succeeded else s.status,
      hashed,
      if isLast then p.hash(hashed) else s.cipherTextHash)
  }

  /** The facts `Encrypt` and `Decrypt` share about the state after a successful block. */
  ghost predicate Advanced(s: StreamState, s': StreamState, isLast: bool, framed: Bytes, p: Primitives) {
    && s'.key == s.key
    && FileNonce(s') == FileNonce(s)
    && Counter(s'.fullNonce) == (Counter(BlockNonce(s, isLast)) + 1) % CounterModulus
    && (s'.status == Succeeded <==> isLast)
    && (!isLast ==> s'.status == Incomplete)
    && s'.hashed == s.hashed + framed
    && (isLast ==> s'.cipherTextHash == p.hash(s'.hashed))
  }

  /** One step of `encrypt(messageBlock:isLastBlock:)` after sealing: the key and file nonce
      stay, the counter moves one past the block's nonce, the status follows `isLastBlock`, the
      frame is hashed, and the last step finalises the digest. */
  lemma AdvanceFacts(s: StreamState, isLast: bool, framed: Bytes, p: Primitives)
    requires p.HashLawful() && s.status == Incomplete
    ensures Advanced(s, Advance(s, isLast, framed, p), isLast, framed, p)
  {
    var s' := Advance(s, isLast, framed, p);
    assert s'.fullNonce[..FileNonceBytes] == BlockNonce(s, isLast)[..FileNonceBytes];
  }

  /** `encrypt(messageBlock:isLastBlock:)`. A finished stream refuses with `processComplete`
      before looking at the block; a block must hold 1 to 1,048,576 bytes. The output is the
      4-byte length tag followed by the secretbox of the block, 16 bytes longer than the block,
      under the current nonce (with the top counter bit set when the block is the last). */
  function Encrypt(s: StreamState, block: Bytes, isLast: bool, p: Primitives): (r: Result<Step, CryptoError>)
    requires p.StreamLawful()
    ensures s.status != Incomplete ==> r == Failure(ProcessComplete)
    ensures s.status == Incomplete && (|block| == 0 || |block| > PlainTextBlockMaxBytes) ==>
      r == Failure(InputSizeInvalid)
    ensures r.Success? <==> s.status == Incomplete && 0 < |block| <= PlainTextBlockMaxBytes
    ensures r.Success? ==>
      && |r.value.output| == BlockSizeTagLength + |block| + SecretBoxMacBytes
      && FromLE(r.value.output[..BlockSizeTagLength]) == |block|
      && r.value.output[..BlockSizeTagLength] == LengthTag(|block|)
      && r.value.output[BlockSizeTagLength..] == p.secretSeal(block, BlockNonce(s, isLast), s.key)
      && Advanced(s, r.value.state, isLast, r.value.output, p)
  {
    if s.status != Incomplete then Failure(ProcessComplete)
    else if |block| == 0 || |block| > PlainTextBlockMaxBytes then Failure(InputSizeInvalid)
    else
      var framed := LengthTag(|block|) + p.secretSeal(block, BlockNonce(s, isLast), s.key);
      assert framed[..BlockSizeTagLength] == LengthTag(|block|);
      AdvanceFacts(s, isLast, framed, p);
      Success(Step(Advance(s, isLast, framed, p), framed))
  }

  /** The block decryptor, which mirrors `Encrypt`: a finished stream refuses with
      `processComplete`; the tag must give a length of 1 to 1,048,576 bytes and the block must
      be exactly the tag, that many bytes and the 16-byte MAC; a block that does not open under
      the current nonce fails with `macVerificationFailed`. */
  function Decrypt(s: StreamState, framed: Bytes, isLast: bool, p: Primitives): (r: Result<Step, CryptoError>)
    requires p.StreamLawful()
    ensures s.status != Incomplete ==> r == Failure(ProcessComplete)
    ensures r.Success? ==>
      && s.status == Incomplete
      && |framed| == BlockSizeTagLength + |r.value.output| + SecretBoxMacBytes
      && FromLE(framed[..BlockSizeTagLength]) == |r.value.output|
      && 0 < |r.value.output| <= PlainTextBlockMaxBytes
      && p.secretOpen(framed[BlockSizeTagLength..], BlockNonce(s, isLast), s.key) == Some(r.value.output)
      && Advanced(s, r.value.state, isLast, framed, p)
    ensures r.Failure? && r.error != MacVerificationFailed ==>
      s.status != Incomplete || !WellFramed(framed)
  {
    if s.status != Incomplete then Failure(ProcessComplete)
    else if !WellFramed(framed) then Failure(InputSizeInvalid)
    else
      match p.secretOpen(framed[BlockSizeTagLength..], BlockNonce(s, isLast), s.key)
      case None => Failure(MacVerificationFailed)
      case Some(m) =>
        AdvanceFacts(s, isLast, framed, p);
        Success(Step(Advance(s, isLast, framed, p), m))
  }

  /** A framed block: a tag giving a length of 1 to 1,048,576 and exactly that many bytes plus
      the MAC after it. */
  predicate WellFramed(framed: Bytes) {
    && |framed| >= BlockSizeTagLength
    && 0 < FromLE(framed[..BlockSizeTagLength]) <= PlainTextBlockMaxBytes
    && |framed| == BlockSizeTagLength + FromLE(framed[..BlockSizeTagLength]) + SecretBoxMacBytes
  }

  /** Decrypting what `Encrypt` produced, from the same state, gives back the block and the same
      next state. */
  lemma EncryptDecrypt(s: StreamState, block: Bytes, isLast: bool, p: Primitives)
    requires p.StreamLawful()
    requires Encrypt(s, block, isLast, p).Success?
    ensures Decrypt(s, Encrypt(s, block, isLast, p).value.output, isLast, p) == Success(Encrypt(s, block, isLast, p).value.(output := block))
  {
  }

  /** `EncryptDecrypt` for a known step. */
  lemma EncryptDecryptStep(s: StreamState, block: Bytes, isLast: bool, step: Step, p: Primitives)
    requires p.StreamLawful()
    requires Encrypt(s, block, isLast, p) == Success(step)
    ensures Decrypt(s, step.output, isLast, p) == Success(step.(output := block))
  {
    EncryptDecrypt(s, block, isLast, p);
  }

  /** Encrypting `blocks` in order with only the final one flagged last, as both file
      encryptors do; the first failure stops the run. */
  function EncryptAll(s: StreamState, blocks: seq<Bytes>, p: Primitives): (r: Result<Run, CryptoError>)
    requires p.StreamLawful()
    ensures r.Success? ==> |r.value.outputs| == |blocks|
    decreases |blocks|
  {
    if |blocks| == 0 then Success(Run(s, []))
    else
      match Encrypt(s, blocks[0], |blocks| == 1, p)
      case Failure(e) => Failure(e)
      case Success(step) =>
        match EncryptAll(step.state, blocks[1..], p)
        case Failure(e) => Failure(e)
        case Success(run) => Success(Run(run.state, [step.output] + run.outputs))
  }
  /** A run never changes the key or the file nonce: every block of a file is sealed under the
      key and file nonce drawn for it (`fileNonce` is fixed by `init` and only the counter
      bytes move). */
  lemma {:induction false} EncryptAllKeepsFileNonce(s: StreamState, blocks: seq<Bytes>, p: Primitives)
    requires p.StreamLawful()
    ensures EncryptAll(s, blocks, p).Success? ==>
      EncryptAll(s, blocks, p).value.state.key == s.key && FileNonce(EncryptAll(s, blocks, p).value.state) == FileNonce(s)
    decreases |blocks|
  {
    if |blocks| > 0 && EncryptAll(s, blocks, p).Success? {
      var step := Encrypt(s, blocks[0], |blocks| == 1, p).value;
      EncryptAllKeepsFileNonce(step.state, blocks[1..], p);
    }
  }


  /** Decrypting framed blocks in order with only the final one flagged last. */
  function DecryptAll(s: StreamState, frames: seq<Bytes>, p: Primitives): (r: Result<Run, CryptoError>)
    requires p.StreamLawful()
    ensures r.Success? ==> |r.value.outputs| == |frames|
    decreases |frames|
  {
    if |frames| == 0 then Success(Run(s, []))
    else
      match Decrypt(s, frames[0], |frames| == 1, p)
      case Failure(e) => Failure(e)
      case Success(step) =>
        match DecryptAll(step.state, frames[1..], p)
        case Failure(e) => Failure(e)
        case Success(run) => Success(Run(run.state, [step.output] + run.outputs))
  }

  /** A block size both stream directions accept. */
  predicate ValidBlock(block: Bytes) {
    0 < |block| <= PlainTextBlockMaxBytes
  }

  /** From an unfinished stream, a run succeeds exactly when every block has a valid size, and
      a non-empty run leaves the stream finished. */
  lemma {:induction false} EncryptAllSucceeds(s: StreamState, blocks: seq<Bytes>, p: Primitives)
    requires p.StreamLawful()
    requires s.status == Incomplete
    ensures EncryptAll(s, blocks, p).Success? <==> forall i :: 0 <= i < |blocks| ==> ValidBlock(blocks[i])
    ensures EncryptAll(s, blocks, p).Success? && |blocks| > 0 ==> EncryptAll(s, blocks, p).value.state.status == Succeeded
    decreases |blocks|
  {
    if |blocks| > 0 && ValidBlock(blocks[0]) {
      var step := Encrypt(s, blocks[0], |blocks| == 1, p).value;
      if |blocks| > 1 {
        EncryptAllSucceeds(step.state, blocks[1..], p);
        assert forall i :: 1 <= i < |blocks| ==> blocks[i] == blocks[1..][i - 1];
      }
    }
  }

  /** Decrypting a run's frames from the same state gives back the blocks. */
  lemma {:induction false} EncryptAllDecryptAll(s: StreamState, blocks: seq<Bytes>, run: Run, p: Primitives)
    requires p.StreamLawful()
    requires EncryptAll(s, blocks, p) == Success(run)
    ensures DecryptAll(s, run.outputs, p) == Success(run.(outputs := blocks))
    decreases |blocks|
  {
    if |blocks| > 0 {
      var step, tail := EncryptAllFirst(s, blocks, run, p);
      EncryptAllDecryptAll(step.state, blocks[1..], tail, p);
      EncryptDecryptStep(s, blocks[0], |blocks| == 1, step, p);
      DecryptAllStep(s, blocks, run, step.output, step.(output := blocks[0]), tail, p);
    }
  }

  /** The inductive step of `EncryptAllDecryptAll`: the first frame decrypts to the first block
      and the rest decrypt to the rest of the blocks. */
  lemma DecryptAllStep(s: StreamState, blocks: seq<Bytes>, run: Run, frame: Bytes, first: Step, tail: Run, p: Primitives)
    requires p.StreamLawful() && |blocks| > 0
    requires run == Run(tail.state, [frame] + tail.outputs) && |tail.outputs| == |blocks| - 1
    requires Decrypt(s, frame, |blocks| == 1, p) == Success(first) && first.output == blocks[0]
    requires DecryptAll(first.state, tail.outputs, p) == Success(tail.(outputs := blocks[1..]))
    ensures DecryptAll(s, run.outputs, p) == Success(run.(outputs := blocks))
  {
    DecryptAllCons(s, frame, tail.outputs, first, tail.(outputs := blocks[1..]), p);
    assert [blocks[0]] + blocks[1..] == blocks;
  }



  /** A run over a non-empty list is its first step followed by the run over the rest. */
  lemma EncryptAllFirst(s: StreamState, blocks: seq<Bytes>, run: Run, p: Primitives) returns (step: Step, tail: Run)
    requires p.StreamLawful() && |blocks| > 0
    requires EncryptAll(s, blocks, p) == Success(run)
    ensures Encrypt(s, blocks[0], |blocks| == 1, p) == Success(step)
    ensures EncryptAll(step.state, blocks[1..], p) == Success(tail)
    ensures run == Run(tail.state, [step.output] + tail.outputs)
  {
    step := Encrypt(s, blocks[0], |blocks| == 1, p).value;
    tail := EncryptAll(step.state, blocks[1..], p).value;
  }


  /** Decrypting a non-empty list of frames is decrypting the first, then the rest from there. */
  lemma DecryptAllCons(s: StreamState, frame: Bytes, frames: seq<Bytes>, first: Step, rest: Run, p: Primitives)
    requires p.StreamLawful()
    requires Decrypt(s, frame, |frames| == 0, p) == Success(first)
    requires DecryptAll(first.state, frames, p) == Success(rest)
    ensures DecryptAll(s, [frame] + frames, p) == Success(Run(rest.state, [first.output] + rest.outputs))
  {
    assert ([frame] + frames)[0] == frame && ([frame] + frames)[1..] == frames;
  }



  /** One block of a run: the frame is fed to BLAKE2s; a last block finalizes the digest and
      any other block leaves the stream unfinished. */
  lemma EncryptHashed(s: StreamState, block: Bytes, isLast: bool, p: Primitives)
    requires p.StreamLawful() && Encrypt(s, block, isLast, p).Success?
    ensures var step := Encrypt(s, block, isLast, p).value;
      && step.state.hashed == s.hashed + step.output
      && (isLast ==> step.state.cipherTextHash == p.hash(step.state.hashed))
      && (!isLast ==> step.state.status == Incomplete)
  {
  }

  /** Feeding one frame and then the rest of a run feeds the run's frames in order. */
  lemma HashedAppend(h0: Bytes, frame: Bytes, h1: Bytes, rest: seq<Bytes>, h2: Bytes)
    requires h1 == h0 + frame && h2 == h1 + Concat(rest)
    ensures h2 == h0 + Concat([frame] + rest)
  {
    assert ([frame] + rest)[1..] == rest;
  }

  /** A run feeds every frame it writes to BLAKE2s, in order. */
  lemma {:induction false} EncryptAllHashed(s: StreamState, blocks: seq<Bytes>, p: Primitives)
    requires p.StreamLawful() && s.status == Incomplete
    requires EncryptAll(s, blocks, p).Success?
    ensures EncryptAll(s, blocks, p).value.state.hashed == s.hashed + Concat(EncryptAll(s, blocks, p).value.outputs)
    decreases |blocks|
  {
    if |blocks| > 0 {
      var step := Encrypt(s, blocks[0], |blocks| == 1, p).value;
      EncryptHashed(s, blocks[0], |blocks| == 1, p);
      var run := EncryptAll(step.state, blocks[1..], p).value;
      if |blocks| > 1 {
        EncryptAllHashed(step.state, blocks[1..], p);
      } else {
        assert step.state.hashed + Concat(run.outputs) == step.state.hashed;
      }
      HashedAppend(s.hashed, step.output, step.state.hashed, run.outputs, run.state.hashed);
    }
  }

  /** A non-empty run ends with the ciphertext hash set to the digest of everything hashed. */
  lemma {:induction false} EncryptAllDigest(s: StreamState, blocks: seq<Bytes>, p: Primitives)
    requires p.StreamLawful() && s.status == Incomplete
    requires EncryptAll(s, blocks, p).Success? && |blocks| > 0
    ensures EncryptAll(s, blocks, p).value.state.cipherTextHash == p.hash(EncryptAll(s, blocks, p).value.state.hashed)
    decreases |blocks|
  {
    var step := Encrypt(s, blocks[0], |blocks| == 1, p).value;
    EncryptHashed(s, blocks[0], |blocks| == 1, p);
    if |blocks| > 1 {
      EncryptAllDigest(step.state, blocks[1..], p);
    }
  }

  /** The nonce of block `j` of a run of `count` blocks that starts at counter `first`: the
      counter is `first + j`, with the top bit set on the final block. */
  function RunNonce(fileNonce: Bytes, first: nat, j: nat, count: nat): Bytes
    requires |fileNonce| == FileNonceBytes
  {
    CounterNonce(fileNonce, first + j + (if j == count - 1 then LastBlockBit else 0))
  }

  /** The first block of a run that fits below the top counter bit is sealed under the run's
      first nonce. */
  lemma FirstBlockNonce(s: StreamState, count: nat)
    requires 0 < count && Counter(s.fullNonce) + count <= LastBlockBit
    ensures BlockNonce(s, count == 1) == RunNonce(FileNonce(s), Counter(s.fullNonce), 0, count)
  {
    var c := Counter(s.fullNonce);
    NonceOfCounter(s.fullNonce);
    NonceOfCounter(BlockNonce(s, count == 1));
    if count == 1 {
      ModSmall(c, LastBlockBit);
    }
  }

  /** After a block that is not the last, the counter is one higher, as long as it stays below
      2^64. */
  lemma NextCounter(s: StreamState, s': StreamState, framed: Bytes, p: Primitives)
    requires Advanced(s, s', false, framed, p)
    requires Counter(s.fullNonce) + 1 < CounterModulus
    ensures Counter(s'.fullNonce) == Counter(s.fullNonce) + 1
  {
    ModSmall(Counter(s.fullNonce) + 1, CounterModulus);
  }


  /** Block `j` of a run from counter `c` is block `j - 1` of the rest of the run from `c + 1`. */
  lemma ShiftRunNonce(fileNonce: Bytes, c: nat, j: nat, count: nat, fileNonce': Bytes, c': nat, count': nat)
    requires |fileNonce| == FileNonceBytes
    requires 1 <= j < count
    requires fileNonce' == fileNonce && c' == c + 1 && count' == count - 1
    ensures RunNonce(fileNonce, c, j, count) == RunNonce(fileNonce', c', j - 1, count')
  {
    var k := c + j + (if j == count - 1 then LastBlockBit else 0);
    assert k == c' + (j - 1) + (if j - 1 == count' - 1 then LastBlockBit else 0);
  }

  /** Equal blocks sealed under equal nonces and keys give equal frames. */
  lemma SameFrame(x: Bytes, y: Bytes, b: Bytes, b': Bytes, n: Bytes, n': Bytes, k: Bytes, k': Bytes, p: Primitives)
    requires x == y && y == LengthTag(|b'|) + p.secretSeal(b', n', k')
    requires b == b' && n == n' && k == k'
    ensures x == LengthTag(|b|) + p.secretSeal(b, n, k)
  {
  }

  /** Block `j` of a run is framed with its length tag and sealed under `RunNonce`: the counter
      counts blocks from where the run started, and only the final block carries the top bit. */
  lemma {:induction false} EncryptAllNonce(s: StreamState, blocks: seq<Bytes>, p: Primitives, j: nat)
    requires p.StreamLawful()
    requires s.status == Incomplete
    requires Counter(s.fullNonce) + |blocks| <= LastBlockBit
    requires EncryptAll(s, blocks, p).Success?
    requires j < |blocks|
    ensures EncryptAll(s, blocks, p).value.outputs[j]
      == LengthTag(|blocks[j]|) + p.secretSeal(blocks[j], RunNonce(FileNonce(s), Counter(s.fullNonce), j, |blocks|), s.key)
    decreases j
  {
    var c := Counter(s.fullNonce);
    var step := Encrypt(s, blocks[0], |blocks| == 1, p).value;
    var outs := EncryptAll(s, blocks, p).value.outputs;
    if j == 0 {
      FirstBlockNonce(s, |blocks|);
      assert outs[0] == step.output;
      assert step.output == step.output[..BlockSizeTagLength] + step.output[BlockSizeTagLength..];
    } else {
      NextCounter(s, step.state, step.output, p);
      var rest := blocks[1..];
      EncryptAllNonce(step.state, rest, p, j - 1);
      assert outs[j] == EncryptAll(step.state, rest, p).value.outputs[j - 1];
      assert blocks[j] == rest[j - 1];
      assert FileNonce(step.state) == FileNonce(s) && step.state.key == s.key;
      ShiftRunNonce(FileNonce(s), c, j, |blocks|, FileNonce(step.state), Counter(step.state.fullNonce), |rest|);
      SameFrame(outs[j], EncryptAll(step.state, rest, p).value.outputs[j - 1],
        blocks[j], rest[j - 1],
        RunNonce(FileNonce(s), c, j, |blocks|),
        RunNonce(FileNonce(step.state), Counter(step.state.fullNonce), j - 1, |rest|),
        s.key, step.state.key, p);
    }
  }

  /** No two blocks of a run of at most 2^63 blocks share a nonce. */
  lemma RunNoncesDistinct(fileNonce: Bytes, count: nat, j: nat, k: nat)
    requires |fileNonce| == FileNonceBytes
    requires count <= LastBlockBit
    requires j < k < count
    ensures RunNonce(fileNonce, 0, j, count) != RunNonce(fileNonce, 0, k, count)
  {
    var cj := j + (if j == count - 1 then LastBlockBit else 0);
    var ck := k + (if k == count - 1 then LastBlockBit else 0);
    assert cj != ck;
    CounterNonceInjective(fileNonce, cj, ck);
  }

  /** Different counters below 2^64 give different nonces. */
  lemma CounterNonceInjective(fileNonce: Bytes, a: nat, b: nat)
    requires |fileNonce| == FileNonceBytes
    requires a < CounterModulus && b < CounterModulus && a != b
    ensures CounterNonce(fileNonce, a) != CounterNonce(fileNonce, b)
  {
    Pow256Values();
    ToLEInjective(a, b, 8);
    var na, nb := CounterNonce(fileNonce, a), CounterNonce(fileNonce, b);
    assert na[FileNonceBytes..] == ToLE(a, 8);
    assert nb[FileNonceBytes..] == ToLE(b, 8);
  }
}
