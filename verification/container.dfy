/** The byte layout of a miniLock file: the magic bytes "miniLock", the header length as 4
    little-endian bytes, the header, then the payload of framed blocks. A file being read is a
    byte string; what is left after the read cursor is the remainder of that string. */
module Container {
  import opened Wrappers
  import opened Bytes
  import opened FileFormat
  import opened Seqs
  import opened Primitives

  /** What `readData(ofLength: n)` returns at the front of `rest`: `n` bytes, or all of them
      when fewer remain. */
  function Take(rest: Bytes, n: nat): (r: Bytes)
    ensures |r| == (if n <= |rest| then n else |rest|)
    ensures r == rest[..|r|]
  {
    rest[..if n <= |rest| then n else |rest|]
  }

  /** A whole container: magic bytes, the 4-byte header length, the header and the payload. */
  function Layout(headerData: Bytes, payload: Bytes): (r: Bytes)
    ensures |r| == |MagicBytes| + HeaderBytesLength + |headerData| + |payload|
    ensures r[..|MagicBytes|] == MagicBytes
    ensures FromLE(r[|MagicBytes|..|MagicBytes| + HeaderBytesLength]) == |headerData| % Pow256(HeaderBytesLength)
    ensures |headerData| < Pow256(HeaderBytesLength) ==>
      FromLE(r[|MagicBytes|..|MagicBytes| + HeaderBytesLength]) == |headerData|
    ensures r[|MagicBytes| + HeaderBytesLength..|MagicBytes| + HeaderBytesLength + |headerData|] == headerData
    ensures r[|MagicBytes| + HeaderBytesLength + |headerData|..] == payload
  {
    var tag := ToLE(|headerData|, HeaderBytesLength);
    var r := MagicBytes + tag + headerData + payload;
    assert r[..|MagicBytes|] == MagicBytes && r[|MagicBytes|..|MagicBytes| + HeaderBytesLength] == tag;
    assert |headerData| < Pow256(HeaderBytesLength) ==> FromLE(tag) == |headerData| by {
      if |headerData| < Pow256(HeaderBytesLength) {
        FromToLE(|headerData|, HeaderBytesLength);
      }
    }
    r
  }

  /** The loop that writes the header length: byte `i` is `UInt8((headerSize >> (8 * i)) & 0xff)`. */
  method WriteLength(size: nat) returns (r: Bytes)
    ensures |r| == HeaderBytesLength
    ensures r == ToLE(size, HeaderBytesLength)
    ensures size < Pow256(HeaderBytesLength) ==> FromLE(r) == size
  {
    r := [];
    var i := 0;
    while i < HeaderBytesLength
      invariant i <= HeaderBytesLength && |r| == i
      invariant forall j :: 0 <= j < i ==> r[j] == ToLE(size, HeaderBytesLength)[j]
    {
      ToLEByte(size, HeaderBytesLength, i);
      r := r + [(size / Pow256(i)) % 256];
      i := i + 1;
    }
    if size < Pow256(HeaderBytesLength) {
      FromToLE(size, HeaderBytesLength);
    }
  }

  /** The loop that reads a little-endian length: `length |= Int(bytes[i]) << (8 * i)`. The
      shifted bytes occupy disjoint bits, so the `|=` adds them up. */
  method ReadLength(b: Bytes) returns (v: nat)
    ensures v == FromLE(b)
    ensures v < Pow256(|b|)
  {
    v := 0;
    var i := 0;
    while i < |b|
      invariant i <= |b| && v == FromLE(b[..i])
    {
      FromLEAppend(b, i);
      v := v + b[i] * Pow256(i);
      i := i + 1;
    }
    assert b[..i] == b;
  }

  /** The two steps of reading a header length undo the two steps of writing it, for every
      header shorter than 2^32 bytes. */
  method LengthRoundTrip(size: nat) returns (read: nat)
    requires size < Pow256(HeaderBytesLength)
    ensures read == size
  {
    var field := WriteLength(size);
    read := ReadLength(field);
  }

  /** The front of a container up to the payload, as the decryptor reads it. */
  datatype Preamble = Preamble(headerText: string, payload: Bytes)

  /** The preamble checks of `getBlockDecryptor`: the first 8 bytes must be the magic bytes,
      4 more bytes must give the header length, that many header bytes must follow and be
      UTF-8; every failure is `corruptMiniLockFile`. The payload is everything after. */
  function ParsePreamble(p: Primitives, file: Bytes): (r: Result<Preamble, Failure>)
    ensures r.Failure? ==> r.error == MiniLock(CorruptMiniLockFile)
    ensures r.Success? ==> |file| >= |MagicBytes| + HeaderBytesLength && file[..|MagicBytes|] == MagicBytes
    ensures r.Success? ==> var length := FromLE(file[|MagicBytes|..|MagicBytes| + HeaderBytesLength]);
      && |MagicBytes| + HeaderBytesLength + length <= |file|
      && p.utf8Decode(file[|MagicBytes| + HeaderBytesLength..|MagicBytes| + HeaderBytesLength + length]) == Some(r.value.headerText)
      && r.value.payload == file[|MagicBytes| + HeaderBytesLength + length..]
  {
    var m := |MagicBytes|;
    if Take(file, m) != MagicBytes then Failure(MiniLock(CorruptMiniLockFile))
    else
      var sizeBytes := Take(file[m..], HeaderBytesLength);
      if |sizeBytes| != HeaderBytesLength then Failure(MiniLock(CorruptMiniLockFile))
      else
        var length := FromLE(sizeBytes);
        var start := m + HeaderBytesLength;
        var headerBytes := Take(file[start..], length);
        if |headerBytes| != length then Failure(MiniLock(CorruptMiniLockFile))
        else
          assert sizeBytes == file[m..start] && headerBytes == file[start..start + length];
          match p.utf8Decode(headerBytes)
          case None => Failure(MiniLock(CorruptMiniLockFile))
          case Some(text) => Success(Preamble(text, file[start + length..]))
  }

  /** Reading a container's preamble gives back the header text and the payload, for a header
      of fewer than 2^32 bytes (the length field has 4 bytes). */
  lemma ParseLayout(p: Primitives, headerData: Bytes, payload: Bytes)
    requires |headerData| < Pow256(HeaderBytesLength) && p.utf8Decode(headerData).Some?
    ensures ParsePreamble(p, Layout(headerData, payload)) == Success(Preamble(p.utf8Decode(headerData).value, payload))
  {
    var file := Layout(headerData, payload);
    var start := |MagicBytes| + HeaderBytesLength;
    assert file[..|MagicBytes|] == MagicBytes;
    assert file[|MagicBytes|..start] == ToLE(|headerData|, HeaderBytesLength);
    FromToLE(|headerData|, HeaderBytesLength);
    assert Take(file, |MagicBytes|) == MagicBytes;
    assert Take(file[|MagicBytes|..], HeaderBytesLength) == ToLE(|headerData|, HeaderBytesLength);
    assert Take(file[start..], |headerData|) == headerData;
    assert file[start + |headerData|..] == payload;
  }

  /** A header of 2^32 bytes or more does not survive the 4-byte length field: the reader takes
      the size modulo 2^32, stops inside the header, and the rest of the header becomes part of
      the payload it returns. */
  lemma OversizedHeaderMisread(p: Primitives, headerData: Bytes, payload: Bytes)
    requires |headerData| >= Pow256(HeaderBytesLength)
    ensures ParsePreamble(p, Layout(headerData, payload)).Success? ==>
      |ParsePreamble(p, Layout(headerData, payload)).value.payload| > |payload|
  {
    var file := Layout(headerData, payload);
    var length := FromLE(file[|MagicBytes|..|MagicBytes| + HeaderBytesLength]);
    assert length < |headerData|;
  }

  /** `MiniLock.isEncryptedFile(url:)`: `notAFileURL` for a URL that is not a file URL; otherwise
      whether the first 8 bytes are the magic bytes, so a shorter file is not encrypted. */
  function IsEncryptedFile(isFileUrl: bool, file: Bytes): (r: Result<bool, Failure>)
    ensures !isFileUrl <==> r == Failure(MiniLock(NotAFileURL))
    ensures isFileUrl ==> (r == Success(true) <==> |file| >= |MagicBytes| && file[..|MagicBytes|] == MagicBytes)
    ensures isFileUrl && |file| < |MagicBytes| ==> r == Success(false)
  {
    if !isFileUrl then Failure(MiniLock(NotAFileURL))
    else Success(Take(file, |MagicBytes|) == MagicBytes)
  }

  /** Every container is recognised as encrypted, and every file whose preamble the decryptor
      accepts is one the probe recognises. */
  lemma IsEncryptedFileAgrees(p: Primitives, headerData: Bytes, payload: Bytes, file: Bytes)
    ensures IsEncryptedFile(true, Layout(headerData, payload)) == Success(true)
    ensures ParsePreamble(p, file).Success? ==> IsEncryptedFile(true, file) == Success(true)
  {
    assert Layout(headerData, payload)[..|MagicBytes|] == MagicBytes;
  }

  /** A framed block as `readNextBlock` accepts it: a 4-byte little-endian length of at most
      1,048,576, then exactly that many bytes and the 16-byte MAC. */
  predicate Framed(f: Bytes) {
    && |f| >= BlockSizeTagLength
    && FromLE(f[..BlockSizeTagLength]) <= PlainTextBlockMaxBytes
    && |f| == BlockSizeTagLength + FromLE(f[..BlockSizeTagLength]) + SecretBoxMacBytes
  }

  /** A block read off the front of a payload and what remains after it. */
  datatype Read = Read(block: Bytes, rest: Bytes)

  /** `readNextBlock(fromFileHandle:)`: an empty block when nothing remains; otherwise the tag
      must be complete, give at most 1,048,576 bytes, and be followed by that many bytes and the
      MAC, or the file is corrupt. The block returned is the tag followed by those bytes. */
  function ReadNextBlock(rest: Bytes): (r: Result<Read, Failure>)
    ensures r.Failure? ==> r.error == MiniLock(CorruptMiniLockFile)
    ensures r.Success? ==> r.value.block + r.value.rest == rest
    ensures r.Success? ==> (|r.value.block| == 0 <==> |rest| == 0)
    ensures r.Success? && |rest| > 0 ==> Framed(r.value.block)
    ensures 0 < |rest| < BlockSizeTagLength ==> r.Failure?
  {
    var tag := Take(rest, BlockSizeTagLength);
    if |tag| == 0 then Success(Read([], rest))
    else if |tag| != BlockSizeTagLength then Failure(MiniLock(CorruptMiniLockFile))
    else
      var length := FromLE(tag);
      if length > PlainTextBlockMaxBytes then Failure(MiniLock(CorruptMiniLockFile))
      else
        var body := Take(rest[BlockSizeTagLength..], length + SecretBoxMacBytes);
        if |body| != length + SecretBoxMacBytes then Failure(MiniLock(CorruptMiniLockFile))
        else
          var end := BlockSizeTagLength + length + SecretBoxMacBytes;
          assert (tag + body)[..BlockSizeTagLength] == tag;
          assert tag + body == rest[..end];
          Success(Read(tag + body, rest[end..]))
  }

  /** A framed block in front of any bytes is read off whole. */
  lemma ReadFramed(f: Bytes, rest: Bytes)
    requires Framed(f)
    ensures ReadNextBlock(f + rest) == Success(Read(f, rest))
  {
    var s := f + rest;
    assert s[..BlockSizeTagLength] == f[..BlockSizeTagLength];
    assert s[..|f|] == f && s[|f|..] == rest;
  }

  /** A framed prefix is what the read takes off. */
  lemma ReadFramedPrefix(rest: Bytes, k: nat)
    requires k <= |rest|
    ensures Framed(rest[..k]) ==> ReadNextBlock(rest) == Success(Read(rest[..k], rest[k..]))
  {
    if Framed(rest[..k]) {
      ReadFramed(rest[..k], rest[k..]);
      assert rest[..k] + rest[k..] == rest;
    }
  }

  /** Reading fails exactly when bytes remain but they do not start with a framed block. */
  lemma ReadNextBlockFails(rest: Bytes)
    ensures ReadNextBlock(rest).Failure? <==> |rest| > 0 && forall k :: 0 <= k <= |rest| ==> !Framed(rest[..k])
  {
    if ReadNextBlock(rest).Failure? {
      forall k | 0 <= k <= |rest|
        ensures !Framed(rest[..k])
      {
        ReadFramedPrefix(rest, k);
      }
    } else if |rest| > 0 {
      var b := ReadNextBlock(rest).value.block;
      assert rest[..|b|] == b;
    }
  }

  /** Reference definition: the payload cut into its framed blocks by repeated reads. */
  function ParseFrames(rest: Bytes): (r: Result<seq<Bytes>, Failure>)
    ensures r.Success? ==> Concat(r.value) == rest
    ensures r.Success? ==> forall k :: 0 <= k < |r.value| ==> Framed(r.value[k])
    decreases |rest|
  {
    match ReadNextBlock(rest)
    case Failure(e) => Failure(e)
    case Success(read) =>
      if |read.block| == 0 then Success([])
      else
        match ParseFrames(read.rest)
        case Failure(e) => Failure(e)
        case Success(frames) =>
          var r := [read.block] + frames;
          assert r[1..] == frames;
          Success(r)
  }

  /** Framed blocks written one after another are read back one by one. */
  lemma {:induction false} ParseConcat(frames: seq<Bytes>)
    requires forall k :: 0 <= k < |frames| ==> Framed(frames[k])
    ensures ParseFrames(Concat(frames)) == Success(frames)
  {
    if |frames| > 0 {
      ReadFramed(frames[0], Concat(frames[1..]));
      ParseConcat(frames[1..]);
      assert [frames[0]] + frames[1..] == frames;
    }
  }
}
