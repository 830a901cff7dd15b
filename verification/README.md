# miniLock container engine of SwiftLock, in Dafny

SwiftLock is an iOS client for miniLock, a file encryption format. This project models two parts of it.

The first part is the engine in `MiniLockCore`. It covers:

- **The block stream.** A 24-byte nonce is a 16-byte file nonce plus an 8-byte little-endian block counter. The stream has `incomplete`/`succeeded` status and frames each block as a 4-byte length tag followed by the secretbox output. A running BLAKE2s hash covers the frames.
- **The container.** The magic bytes `miniLock` come first, then the header length as 4 little-endian bytes, the JSON header, and the framed blocks. A 256-byte padded file-name block comes first, followed by the content in chunks of at most 2^20 bytes.
- **The header.** The file key, nonce and hash are boxed by the sender for every recipient. That box is boxed again under an ephemeral key and filed under the recipient's nonce. Decryption tries the entries in order.
- **miniLock ids.** An id is a 32-byte public key plus a one-byte checksum, written in Base58.
- **The magic-byte probe.**
- **The "copy N" naming** of files that already exist.

The second part is the app side:

- `String.adding(seperator:afterCharacters:)`.
- The `Friend` QR-code text, encoded and decoded with its regular expression.
- The sorted insertion of friends.
- The user's encrypted friends database.

Files are byte sequences (`seq<uint8>`) and operations are pure functions. The loops the Swift code runs are methods whose invariants tie them to those functions.

libsodium, BLAKE2s, Base58, Base64, UTF-8 and ObjectMapper are not modelled. They are function-valued fields of `Primitives.Primitives`. The `...Lawful` predicates state the only facts the proofs use: output lengths, round trips, and box authenticity for the multi-recipient case. Randomness, file existence and file-creation outcomes are parameters.

The round trips proved:

- **In memory** (`RoundTrip.DataRoundTrip`): data encrypted for a recipient decrypts in memory to the sender's id and the same data.
- **Through a directory** (`RoundTrip.FileRoundTrip`): a file encrypted to a directory also gives back its name.
- **Escaping** (`Friends.UnescapeEscape`): unescaping a friend's escaped name gives the name back.
- **QR code** (`Friends.QRCodeRoundTrip`): a friend's QR text decodes to the same friend.
- **Friends database** (`FriendLists.SaveLoadRoundTrip`): the saved database loads back the same friends.

Where the code and the format description disagree, the model follows the code:

- **Block layout.** StreamEncryptor.swift lines 75-85 write the secretbox output after the length tag, with the 16 MAC bytes in front of the ciphertext. The model keeps those 16 + L bytes as one opaque secretbox output, so the MAC's position is not modelled.
- **Data encryptor.** `encrypt(_:destinationFileURL:sender:recipients:)` throws `recepientListEmpty` for empty data as well as for empty recipients. Its name block is all zeros.
- **`adding`.** `String.adding` traps for a separator interval of 0 (stride by zero), so the model requires `n != 0`. A negative interval gives the empty string, because the stride is then empty.
- **Status.** The file decryptor's status never leaves `incomplete`, so `processAlreadyComplete` is never thrown. The model has no state for it.
- **Empty names.** A friend with an empty name writes a QR text that does not decode, because the name group needs one character (`Friends.EmptyNameRejected`).

## Model

| member | source | states |
|---|---|---|
| Stream.Init | Pods/MiniLockCore/MiniLockCore/Classes/MiniLock/StreamCryptoBase.swift:61-73 | Fails with `inputSizeInvalid` unless the key has 32 bytes and the file nonce has 16. Otherwise the stream keeps the key, its file nonce is the given one, the counter is 0, the status is `incomplete` and nothing is hashed yet. |
| Stream.EncryptAllKeepsFileNonce | Pods/MiniLockCore/MiniLockCore/Classes/MiniLock/StreamCryptoBase.swift:45-88 | A successful run of blocks keeps the key and the 16-byte `fileNonce` it started with, because `incrementNonce` and the last-block flag only touch the counter bytes. |
| Stream.AdvanceFacts | Pods/MiniLockCore/MiniLockCore/Classes/MiniLock/StreamEncryptor.swift:64-103 | After a block is sealed, the key and file nonce stay and the counter is one past the block's nonce. The status is `succeeded` exactly after the last block. The frame is appended to the hashed bytes, and after the last block `cipherTextHash` is their digest. |
| Stream.NonceOfCounter | Pods/MiniLockCore/MiniLockCore/Classes/MiniLock/StreamCryptoBase.swift:42-47 | Every 24-byte nonce is its file nonce followed by the 8-byte little-endian counter. |
| Stream.Increment | Pods/MiniLockCore/MiniLockCore/Classes/MiniLock/StreamCryptoBase.swift:79-88 | The byte loop with carry, which stops at the first byte that does not wrap, adds one to the little-endian value modulo 256^n. |
| Stream.IncrementNonce | Pods/MiniLockCore/MiniLockCore/Classes/MiniLock/StreamCryptoBase.swift:79-88 | `incrementNonce` keeps the 16 file-nonce bytes and adds one to the counter modulo 2^64. |
| Stream.SetLastBlockFlag | Pods/MiniLockCore/MiniLockCore/Classes/MiniLock/StreamEncryptor.swift:64-66 | Setting bit 7 of nonce byte 23 keeps the file nonce, sets bit 63 of the counter and keeps the other 63 bits. |
| Stream.FlagCounter | Pods/MiniLockCore/MiniLockCore/Classes/MiniLock/StreamEncryptor.swift:66 | The byte-level `\|= 0x80` on the last nonce byte is exactly that counter change. |
| Stream.LengthTag | Pods/MiniLockCore/MiniLockCore/Classes/MiniLock/StreamEncryptor.swift:88-90 | The tag has 4 bytes and reads back little-endian as the block length for any length below 2^32. |
| Stream.Encrypt | Pods/MiniLockCore/MiniLockCore/Classes/MiniLock/StreamEncryptor.swift:54-106 | `processComplete` whenever the status is not `incomplete`, checked before the size. `inputSizeInvalid` for an empty block or one over 1,048,576 bytes. Succeeds exactly otherwise. The output is the length tag followed by the block sealed under the current nonce, with the top counter bit set for the last block. Afterwards the counter has advanced, the status is `succeeded` exactly after the last block, and the frame has been hashed. |
| Stream.Decrypt | Pods/MiniLockCore/MiniLockCore/Classes/MiniLock/FileDecryptor.swift:194 | The block decryptor mirrors `Encrypt`: `processComplete` after the end. On success, the output is what the secretbox opened from a well-framed input under the same nonce. A failure other than a MAC failure is a size or framing failure. |
| Stream.EncryptDecrypt | Pods/MiniLockCore/MiniLockCore/Classes/MiniLock/StreamEncryptor.swift:54-106 | Decrypting an encrypted block from the same state gives back the block and the same next state. |
| Stream.EncryptAllSucceeds | Pods/MiniLockCore/MiniLockCore/Classes/MiniLock/FileEncryptor.swift:134-145 | A run with only its final block flagged last succeeds exactly when every block has a valid size. After a non-empty run the status is `succeeded`. |
| Stream.EncryptAllDecryptAll | Pods/MiniLockCore/MiniLockCore/Classes/MiniLock/FileDecryptor.swift:103-117 | Decrypting a run's frames in order, with the last one flagged, gives back every block and the same final state. |
| Stream.EncryptAllHashed | Pods/MiniLockCore/MiniLockCore/Classes/MiniLock/StreamEncryptor.swift:92-95 | A run feeds every frame it writes to BLAKE2s, in order. |
| Stream.EncryptAllDigest | Pods/MiniLockCore/MiniLockCore/Classes/MiniLock/StreamEncryptor.swift:98-103 | After a non-empty run, `cipherTextHash` is the digest of all frames written. |
| Stream.EncryptAllNonce | Pods/MiniLockCore/MiniLockCore/Classes/MiniLock/StreamEncryptor.swift:64-81 | Block j is framed with its length tag and sealed under counter `first + j`, with the top bit set only for the final block. |
| Stream.RunNoncesDistinct | Pods/MiniLockCore/MiniLockCore/Classes/MiniLock/StreamCryptoBase.swift:79-88 | No two blocks of a run of at most 2^63 blocks share a nonce. |
| Stream.CounterNonceInjective | Pods/MiniLockCore/MiniLockCore/Classes/MiniLock/StreamCryptoBase.swift:79-88 | Different counters below 2^64 give different nonces. |
| Bytes.ToLE | Pods/MiniLockCore/MiniLockCore/Classes/MiniLock/FileEncryptor.swift:176-180 | n little-endian bytes whose value is x modulo 256^n. |
| Bytes.ToLEByte | Pods/MiniLockCore/MiniLockCore/Classes/MiniLock/FileEncryptor.swift:178 | Byte i is `(x >> (8 * i)) & 0xff`, the expression the writer uses. |
| Bytes.FromToLE | Pods/MiniLockCore/MiniLockCore/Classes/MiniLock/FileDecryptor.swift:158-162 | Reading back an n-byte field recovers every value below 256^n. |
| Bytes.ToFromLE | Pods/MiniLockCore/MiniLockCore/Classes/MiniLock/FileDecryptor.swift:320-324 | Writing back what was read gives the same bytes. |
| Container.WriteLength | Pods/MiniLockCore/MiniLockCore/Classes/MiniLock/FileEncryptor.swift:173-182 | The header-length loop writes 4 bytes that read back as the size for any size below 2^32. |
| Container.ReadLength | Pods/MiniLockCore/MiniLockCore/Classes/MiniLock/FileDecryptor.swift:158-162 | The `\|=` loop computes the little-endian value of the bytes, which is below 256^n. |
| Container.LengthRoundTrip | Pods/MiniLockCore/MiniLockCore/Classes/MiniLock/FileEncryptor.swift:312-318 | Writing and then reading a header length gives back every size below 2^32. |
| Container.ParsePreamble | Pods/MiniLockCore/MiniLockCore/Classes/MiniLock/FileDecryptor.swift:146-169 | Every failure is `corruptMiniLockFile`. A success has the 8 magic bytes, a 4-byte length L, and L header bytes that decode as UTF-8. The payload starts at byte 12 + L. |
| Container.ParseLayout | Pods/MiniLockCore/MiniLockCore/Classes/MiniLock/FileDecryptor.swift:146-192 | Parsing the preamble of a written container gives back its header text and its payload. |
| Container.Layout | Pods/MiniLockCore/MiniLockCore/Classes/MiniLock/FileEncryptor.swift:159-195 | The file written is the 8 magic bytes, a 4-byte field that reads back little-endian as the header size modulo 2^32 (the size itself below 2^32), the header bytes, then the payload, and nothing else. |
| Container.OversizedHeaderMisread | Pods/MiniLockCore/MiniLockCore/Classes/MiniLock/FileEncryptor.swift:173-185 | A header of 2^32 bytes or more is written with its size cut to 4 bytes, so a reader that accepts the file stops inside the header and returns a payload longer than the one written. |
| Container.IsEncryptedFile | Pods/MiniLockCore/MiniLockCore/Classes/MiniLock/MiniLock.swift:100-117 | `notAFileURL` exactly for a URL that is not a file URL. Otherwise true exactly when the file starts with the magic bytes, and false for a file shorter than 8 bytes. |
| Container.IsEncryptedFileAgrees | Pods/MiniLockCore/MiniLockCore/Classes/MiniLock/MiniLock.swift:107-116 | Every written container is recognised, and so is every file whose preamble the decryptor accepts. |
| Container.ReadNextBlock | Pods/MiniLockCore/MiniLockCore/Classes/MiniLock/FileDecryptor.swift:306-341 | Failures are `corruptMiniLockFile`, and 1-3 remaining bytes always fail. The block is empty exactly when nothing remains. Block plus rest is the input, and a non-empty block is a frame: tag, then length + 16 bytes, with length at most 2^20. |
| Container.ReadFramed | Pods/MiniLockCore/MiniLockCore/Classes/MiniLock/FileDecryptor.swift:306-341 | A frame in front of any bytes is read off whole. |
| Container.ReadNextBlockFails | Pods/MiniLockCore/MiniLockCore/Classes/MiniLock/FileDecryptor.swift:315-338 | Reading fails exactly when bytes remain but no prefix of them is a frame. |
| Container.ParseFrames | Pods/MiniLockCore/MiniLockCore/Classes/MiniLock/FileDecryptor.swift:96-117 | Repeated reads cut the payload into frames whose concatenation is the payload. |
| Container.ParseConcat | Pods/MiniLockCore/MiniLockCore/Classes/MiniLock/FileDecryptor.swift:96-117 | Frames written one after another are read back one by one. |
| Seqs.SplitEveryCount | Pods/MiniLockCore/MiniLockCore/Classes/MiniLock/FileEncryptor.swift:276-277 | Cutting into pieces of n gives ceil(len / n) pieces. |
| Seqs.SplitEveryLengths | SwiftLock/Global/Extensions.swift:92 | Every piece has n elements except the last, which has 1 to n. |
| Seqs.SplitEveryConcat | Pods/MiniLockCore/MiniLockCore/Classes/MiniLock/FileEncryptor.swift:279-292 | Together the pieces are the input. |
| Seqs.SplitEveryPiece | Pods/MiniLockCore/MiniLockCore/Classes/MiniLock/FileEncryptor.swift:282-291 | Piece k is the slice from k * n up to k * n + n, or to the end. |
| Encryptor.Start | Pods/MiniLockCore/MiniLockCore/Classes/MiniLock/StreamEncryptor.swift:24-44 | The convenience initialisers draw a 32-byte key and a 16-byte nonce, so the designated initialiser does not throw. |
| Encryptor.PaddedFileName | Pods/MiniLockCore/MiniLockCore/Classes/MiniLock/FileEncryptor.swift:202-214 | The name block has 256 bytes: the first min(n, 255) UTF-8 bytes of the name, then zeros, so the last byte is 0. |
| Encryptor.NextChunk | Pods/MiniLockCore/MiniLockCore/Classes/MiniLock/FileEncryptor.swift:129-136 | A read takes at most 2^20 bytes off the front. It is empty exactly at the end and takes the whole rest when it is short. |
| Encryptor.ChunksValid | Pods/MiniLockCore/MiniLockCore/Classes/MiniLock/FileEncryptor.swift:276-292 | Every chunk is a block size the stream accepts. |
| Encryptor.BlockCount | Pods/MiniLockCore/MiniLockCore/Classes/MiniLock/FileEncryptor.swift:276-277 | `count / max` plus one for a remainder equals ceil(count / max). |
| Encryptor.DataBlock | Pods/MiniLockCore/MiniLockCore/Classes/MiniLock/FileEncryptor.swift:281-292 | In round i of the data loop, the clamped `blockStart ..< blockEnd` is the next chunk. It is flagged last exactly when it reaches the end. |
| Encryptor.EncryptDataBlocks | Pods/MiniLockCore/MiniLockCore/Classes/MiniLock/FileEncryptor.swift:276-292 | The counted data loop encrypts exactly the chunks of the data as one run, only the final chunk flagged last. |
| Encryptor.EncryptSourceBlocks | Pods/MiniLockCore/MiniLockCore/Classes/MiniLock/FileEncryptor.swift:129-145 | `sourceFileEmpty` for an empty source. Otherwise the read-ahead loop encrypts the source's chunks as one run. |
| Encryptor.CopyPayload | Pods/MiniLockCore/MiniLockCore/Classes/MiniLock/FileEncryptor.swift:188-195 | The copy loop writes exactly the payload. |
| Encryptor.EncryptPayloadAll | Pods/MiniLockCore/MiniLockCore/Classes/MiniLock/FileEncryptor.swift:124-145 | The name block, flagged not last, followed by the content chunks is one run over both. |
| Encryptor.Seal | Pods/MiniLockCore/MiniLockCore/Classes/MiniLock/FileEncryptor.swift:159-185 | `couldNotConstructHeader` exactly when the header cannot be made. Otherwise the output is magic, length, header and payload, and it is recognised as encrypted. |
| Encryptor.EncryptData | Pods/MiniLockCore/MiniLockCore/Classes/MiniLock/FileEncryptor.swift:219-334 | `recepientListEmpty` exactly for empty recipients or empty data. Then `couldNotCreateFile` when a file cannot be created. Any other failure is `couldNotConstructHeader`. A success is a recognised container. |
| Encryptor.NewJob | Pods/MiniLockCore/MiniLockCore/Classes/MiniLock/FileEncryptor.swift:31-52 | `notAFileURL`, `fileNameEmpty` and `recepientListEmpty`, checked in that order. A success keeps the padded name. |
| Encryptor.DestinationName | Pods/MiniLockCore/MiniLockCore/Classes/MiniLock/FileEncryptor.swift:62 | The suggested name when one is given. Otherwise the source's name with `.miniLock` appended, which splits back into that name and the extension `miniLock`. |
| Encryptor.HeaderData | Pods/MiniLockCore/MiniLockCore/Classes/MiniLock/FileEncryptor.swift:165-171 | Header bytes exist only when the header can be built, which needs at least one recipient. |
| Encryptor.HeaderDataReadsBack | Pods/MiniLockCore/MiniLockCore/Classes/MiniLock/FileEncryptor.swift:165-171 | The header bytes decode as UTF-8, and the JSON text parses back to the header that was built. |
| Encryptor.EncryptToDirectory | Pods/MiniLockCore/MiniLockCore/Classes/MiniLock/FileEncryptor.swift:60-200 | The file goes to the first path of the `createNewFile` search that does not exist. That is the destination name itself when it is non-empty and free. For an empty name the search starts from the directory itself, which always exists, so the file is a copy named after the directory and placed beside it. Errors come in this order: file creation, then `sourceFileEmpty`, then `couldNotConstructHeader`. The result is a recognised container. |
| Header.MakeFileInfo | Pods/MiniLockCore/MiniLockCore/Classes/MiniLock/Header.swift:270-274 | Each field is the Base64 text of its bytes and decodes back to them. |
| Header.SealFileInfo | Pods/MiniLockCore/MiniLockCore/Classes/MiniLock/Header.swift:60-75 | Succeeds exactly when boxing the file info for the recipient succeeds. The Base64 text decodes back to the box. |
| Header.SealFileInfos | Pods/MiniLockCore/MiniLockCore/Classes/MiniLock/Header.swift:57-75 | Fails exactly when boxing fails for some recipient. Otherwise entry i is the file info boxed for recipient i under nonce i. |
| Header.SealEntry | Pods/MiniLockCore/MiniLockCore/Classes/MiniLock/Header.swift:90-118 | The entry for one recipient exists exactly when its `DecryptInfo` maps to JSON and boxing that JSON under the ephemeral key succeeds. |
| Header.SealEntryDecodes | Pods/MiniLockCore/MiniLockCore/Classes/MiniLock/Header.swift:116-118 | The stored entry is the Base64 text of that box, and decodes back to it. |
| Header.SealEntries | Pods/MiniLockCore/MiniLockCore/Classes/MiniLock/Header.swift:87-120 | Fails exactly when the entry of some recipient fails. |
| Header.SealEntriesKeys | Pods/MiniLockCore/MiniLockCore/Classes/MiniLock/Header.swift:116-118 | The dictionary's keys are exactly the Base64 texts of the recipients' nonces. |
| Header.SealEntriesValues | Pods/MiniLockCore/MiniLockCore/Classes/MiniLock/Header.swift:116-118 | Every value is the entry of a recipient whose nonce is its key. |
| Header.SealEntriesLastWriter | Pods/MiniLockCore/MiniLockCore/Classes/MiniLock/Header.swift:116-118 | A recipient's entry survives when no later recipient's nonce has the same key, so distinct nonces give one entry per recipient. |
| Header.Build | Pods/MiniLockCore/MiniLockCore/Classes/MiniLock/Header.swift:38-124 | No header for no recipients. The version is 1 and the ephemeral field is the Base64 public key. The keys are exactly the recipients' nonce texts. |
| Header.ParseDecryptInfo | Pods/MiniLockCore/MiniLockCore/Classes/MiniLock/Header.swift:203-215 | Parses exactly when the JSON maps and both ids are valid Base58 ids. No nonce is attached. |
| Header.OpenEntry | Pods/MiniLockCore/MiniLockCore/Classes/MiniLock/Header.swift:152-177 | An entry yields an info only if its nonce decodes to 24 bytes, its ciphertext is longer than the MAC, and it opens under the ephemeral key. The nonce is attached. |
| Header.FirstOpened | Pods/MiniLockCore/MiniLockCore/Classes/MiniLock/Header.swift:152-181 | None exactly when no entry opens. Otherwise it is the first entry, in iteration order, that opens. |
| Header.DecryptDecryptInfo | Pods/MiniLockCore/MiniLockCore/Classes/MiniLock/Header.swift:144-182 | `None` when the ephemeral key is not Base64 for 32 bytes. With such a key, `None` exactly when no entry opens. Otherwise the result is the first entry, in iteration order, that opens. |
| Header.DecryptFileInfo | Pods/MiniLockCore/MiniLockCore/Classes/MiniLock/Header.swift:227-261 | None unless a 24-byte nonce is attached, the key pair's id equals the entry's recipient, and the ciphertext exceeds the MAC and opens under the sender's key. |
| Header.ParseWrittenDecryptInfo | Pods/MiniLockCore/MiniLockCore/Classes/MiniLock/Header.swift:203-221 | An entry written for two valid ids parses back to the same ids and file info. |
| Header.OpenOwnEntry | Pods/MiniLockCore/MiniLockCore/Classes/MiniLock/Header.swift:93-118 | The entry sealed for a recipient opens with that recipient's key pair and yields what was sealed. |
| Header.OpenOtherEntry | Pods/MiniLockCore/MiniLockCore/Classes/MiniLock/Header.swift:163-177 | Under box authenticity, an entry sealed for another key does not open. |
| Header.OpenOwnFileInfo | Pods/MiniLockCore/MiniLockCore/Classes/MiniLock/Header.swift:227-257 | The file info the sender boxed for a recipient opens for that recipient and gives back the file info. |
| Header.HeaderRoundTrip | Pods/MiniLockCore/MiniLockCore/Classes/MiniLock/Header.swift:38-182 | For any recipient of a built header with distinct nonces, decryption yields an entry from the sender whose file info opens to the one sealed. |
| Text.StripSlashEscapesKeepsValue | Pods/MiniLockCore/MiniLockCore/Classes/MiniLock/Header.swift:292-300 | Replacing `\/` by `/` in the JSON text of a string gives the text of the same string without slash escaping. |
| Text.StripSlashEscapes | Pods/MiniLockCore/MiniLockCore/Classes/MiniLock/Header.swift:294-300 | A JSON text without `\/` is unchanged, and the result is never longer than the text. |
| Text.ReplaceAll | SwiftLock/Models/Friend.swift:130-132 | `replacingOccurrences(of:with:)`: a text with no occurrence of the pattern is unchanged, and a replacement no longer than the pattern never lengthens the text. |
| Text.Adding | SwiftLock/Global/Extensions.swift:82-96 | For n > 0 the result is the input's consecutive n-character chunks joined by the separator, with none before or after. For n < 0 it is empty. |
| Text.JoinLength | SwiftLock/Global/Extensions.swift:87-93 | A non-empty input gets one separator fewer than it has chunks. |
| Identity.FromBinaryPublicKey | Pods/MiniLockCore/MiniLockCore/Classes/MiniLock/Id.swift:27-43 | An id exactly for a 32-byte key. Its binary is the key followed by its checksum. |
| Identity.FromBase58String | Pods/MiniLockCore/MiniLockCore/Classes/MiniLock/Id.swift:50-69 | An id exactly when the text decodes to 33 bytes whose last byte is the checksum of the first 32. The text is kept as `description`. |
| Identity.FromBinaryPublicKeyValid | Pods/MiniLockCore/MiniLockCore/Classes/MiniLock/Id.swift:27-69 | An id made from a key is valid, and parsing its text gives the same id. |
| Identity.ReadDescription | Pods/MiniLockCore/MiniLockCore/Classes/MiniLock/Id.swift:50-69 | A valid id's text parses back to the same id. |
| Identity.DescriptionIsBase58 | Pods/MiniLockCore/MiniLockCore/Classes/MiniLock/Id.swift:42 | A valid id's text is a non-empty string of Base58 digits. |
| Identity.SameIdByKey | Pods/MiniLockCore/MiniLockCore/Classes/MiniLock/Id.swift:71-73 | `==` compares the binary bytes only. Two valid ids are equal exactly when their keys are, and equal texts mean equal ids. |
| Identity.BoxKey | Pods/MiniLockCore/MiniLockCore/Classes/MiniLock/Header.swift:63-68 | The box functions read the first 32 of the 33 id bytes. |
| FileNames.SplitExtension | Pods/MiniLockCore/MiniLockCore/Classes/Globals.swift:104-109 | The stem and the extension put back together with a `.` give the name. |
| FileNames.NewName | Pods/MiniLockCore/MiniLockCore/Classes/Globals.swift:103-112 | The copy name starts with the stem and " copy", and keeps the original extension. |
| FileNames.NatToString | Pods/MiniLockCore/MiniLockCore/Classes/Globals.swift:111 | The index is written as non-empty decimal digits. |
| FileNames.ParseNatToString | Pods/MiniLockCore/MiniLockCore/Classes/Globals.swift:111 | Reading the digits back gives the index, so the decimal text names it uniquely. |
| FileNames.CandidateInjective | Pods/MiniLockCore/MiniLockCore/Classes/Globals.swift:87-111 | The preferred name, "copy", "copy 2", "copy 3" and so on are all different names. |
| FileNames.FreeRound | Pods/MiniLockCore/MiniLockCore/Classes/Globals.swift:87-92 | The search stops at a free name and every earlier candidate is taken. |
| FileNames.FirstFree | Pods/MiniLockCore/MiniLockCore/Classes/Globals.swift:84-92 | The round where the search stops: that attempt does not exist, and every earlier attempt does. |
| FileNames.CreateNewFile | Pods/MiniLockCore/MiniLockCore/Classes/Globals.swift:84-101 | `couldNotCreateFile` exactly when creation fails. Otherwise the path returned does not exist, every earlier attempt of the `while` loop did, and it is the first free attempt. The empty name is the directory itself, so its copies go beside the directory. |
| FileNames.NewFile | Pods/MiniLockCore/MiniLockCore/Classes/Globals.swift:84-111 | The path does not exist. A non-empty free name is used as is. A taken name becomes `newName(k)` in the directory, for the smallest k >= 1 whose copy is free. The empty name becomes `newName(k)` of the directory's own name, placed in its parent. |
| Decryptor.SourceError | Pods/MiniLockCore/MiniLockCore/Classes/MiniLock/FileDecryptor.swift:52-65 | `notAFileURL` exactly for a non-file URL, then `fileNameEmpty` exactly for an empty name. No error otherwise. |
| Decryptor.GetBlockDecryptor | Pods/MiniLockCore/MiniLockCore/Classes/MiniLock/FileDecryptor.swift:138-195 | A bad preamble or header is `corruptMiniLockFile`. `notARecipient` exactly when no entry or file info opens. A success is a fresh stream at counter 0 with the sender's id and the payload after the header. |
| Decryptor.GetBlockDecryptorOf | Pods/MiniLockCore/MiniLockCore/Classes/MiniLock/FileDecryptor.swift:138-195 | When every step opens, the result is the stream from the file key and nonce, the sender and the payload. |
| Decryptor.ReadAheadLoop | Pods/MiniLockCore/MiniLockCore/Classes/MiniLock/FileDecryptor.swift:103-117 | The `while` loop computes the read-ahead decryption. |
| Decryptor.ReadAheadDecryptAll | Pods/MiniLockCore/MiniLockCore/Classes/MiniLock/FileDecryptor.swift:103-117 | On a well-framed rest, the loop decrypts every block once, in order, with only the final one flagged last. The output is their concatenation. |
| Decryptor.ReadAheadFails | Pods/MiniLockCore/MiniLockCore/Classes/MiniLock/FileDecryptor.swift:103-117 | A rest that is not well framed always makes the loop fail. |
| Decryptor.RemainderFrames | Pods/MiniLockCore/MiniLockCore/Classes/MiniLock/FileDecryptor.swift:96-117 | After the name block, a payload with no content block is corrupt. Otherwise the content blocks are decrypted as one run. |
| Decryptor.DecryptInMemory | Pods/MiniLockCore/MiniLockCore/Classes/MiniLock/FileDecryptor.swift:75-132 | Errors of `getBlockDecryptor` pass through. A success carries the sender that `getBlockDecryptor` found. |
| Decryptor.DecryptInMemoryFrames | Pods/MiniLockCore/MiniLockCore/Classes/MiniLock/FileDecryptor.swift:75-132 | On a payload of at least two frames, the result is the decryption of every frame, the first not last. The name block's plaintext is dropped. |
| Decryptor.UntilNul | Pods/MiniLockCore/MiniLockCore/Classes/MiniLock/FileDecryptor.swift:232 | A C string is the bytes before the first NUL. |
| Decryptor.UntilNulOf | Pods/MiniLockCore/MiniLockCore/Classes/MiniLock/FileDecryptor.swift:232 | Bytes without a NUL followed by a NUL read back as those bytes. |
| Decryptor.EmbeddedName | Pods/MiniLockCore/MiniLockCore/Classes/MiniLock/FileDecryptor.swift:232 | No name for a block without a NUL. A name is the UTF-8 decoding of the bytes before the first NUL. |
| Decryptor.Basename | Pods/MiniLockCore/MiniLockCore/Classes/MiniLock/FileDecryptor.swift:228-239 | A non-empty suggested name is used as is. Without one, a name exists exactly when the decrypted first block has a NUL and the bytes before it decode. |
| Decryptor.DecryptToDirectory | Pods/MiniLockCore/MiniLockCore/Classes/MiniLock/FileDecryptor.swift:208-296 | Errors of `getBlockDecryptor` pass through. The path saved to does not exist, and the sender is the one `getBlockDecryptor` found. A non-empty suggested name that is free is used as is. |
| Decryptor.DecryptToDirectoryAgrees | Pods/MiniLockCore/MiniLockCore/Classes/MiniLock/FileDecryptor.swift:208-296 | Saving to a directory and decrypting in memory agree on plaintext and sender. An in-memory failure means the save fails. |
| Decryptor.FirstThenRemainder | Pods/MiniLockCore/MiniLockCore/Classes/MiniLock/FileDecryptor.swift:225-282 | The name block, flagged not last, then the content blocks, decrypt as one run. |
| RoundTrip.EncryptFramed | Pods/MiniLockCore/MiniLockCore/Classes/MiniLock/StreamEncryptor.swift:83-90 | Every frame the stream writes is one `readNextBlock` takes off whole. |
| RoundTrip.EncryptAllFramed | Pods/MiniLockCore/MiniLockCore/Classes/MiniLock/StreamEncryptor.swift:83-90 | Every frame of a run is such a frame. |
| RoundTrip.PaddedNameReadsBack | Pods/MiniLockCore/MiniLockCore/Classes/MiniLock/FileEncryptor.swift:202-214 | A name without NUL whose UTF-8 fits in 255 bytes is read back from its padded block. |
| RoundTrip.PaddedNameCut | Pods/MiniLockCore/MiniLockCore/Classes/MiniLock/FileEncryptor.swift:205-208 | A longer name reads back as the UTF-8 decoding of its first 255 bytes. |
| RoundTrip.OpenContainer | Pods/MiniLockCore/MiniLockCore/Classes/MiniLock/FileDecryptor.swift:138-195 | A container sealed for a recipient opens to the stream the encryptor started from, with the sender's id and the payload. |
| RoundTrip.DataRoundTrip | Pods/MiniLockCore/MiniLockCore/Classes/MiniLock/FileEncryptor.swift:219-334 | Data encrypted in memory decrypts, for any recipient, to the sender's id and the same data. |
| RoundTrip.WrittenContainer | Pods/MiniLockCore/MiniLockCore/Classes/MiniLock/FileEncryptor.swift:123-199 | The file written is the header sealed over the name block and the source's chunks. |
| RoundTrip.FileRoundTrip | Pods/MiniLockCore/MiniLockCore/Classes/MiniLock/FileEncryptor.swift:60-200 | An encrypted file decrypts, in memory and to a directory, to the sender and the source. Saved to a directory, it goes under the embedded name or a copy name. |
| RoundTrip.SourceChecksAgree | Pods/MiniLockCore/MiniLockCore/Classes/MiniLock/FileDecryptor.swift:52-59 | With a recipient given, the encryptor and the decryptor reject the same URLs with the same error. |
| Friends.EscapeTwoPasses | SwiftLock/Models/Friend.swift:88 | The two `replacingOccurrences` passes put a backslash before every `;` and `:` and change nothing else. |
| Friends.EscapeName | SwiftLock/Models/Friend.swift:88 | The escaped name is the per-character escaping. |
| Friends.UnescapeEscape | SwiftLock/Models/Friend.swift:130-132 | Unescaping an escaped name gives the name back, backslashes included. |
| Friends.Unescape | SwiftLock/Models/Friend.swift:130-132 | A name group with no backslash is unchanged, and unescaping never lengthens the text. |
| Friends.TokensEscaped | SwiftLock/Models/Friend.swift:99 | The name group's tokens are exactly the texts whose `:` and `;` are all escaped. |
| Friends.EscapeEachTokens | SwiftLock/Models/Friend.swift:99 | An escaped name is a run of name tokens and is no shorter than the name. |
| Friends.SplitScheme | SwiftLock/Models/Friend.swift:96-122 | A split found is a whole-text match: `SL:N:`, a name group, `;I:`, Base58 digits, `;;`. |
| Friends.SplitSchemeComplete | SwiftLock/Models/Friend.swift:96-122 | Every whole-text match is found, so the capture groups are unique. |
| Friends.DecodeQRCodeScheme | SwiftLock/Models/Friend.swift:116-144 | A decoded pair comes from a match whose id group is a valid id and whose name group unescapes to the name. |
| Friends.DecodeMatched | SwiftLock/Models/Friend.swift:116-144 | A matching text decodes exactly when its id group is a valid id, and then to the unescaped name and that id. |
| Friends.FromQRCodeScheme | SwiftLock/Models/Friend.swift:146-153 | A friend exactly when the text decodes. Its id is valid and its name is the unescaped name group. |
| Friends.QRCodeScheme | SwiftLock/Models/Friend.swift:87-90 | For a non-empty name and a Base58 id text, the text matches the pattern with the escaped name and the id text as groups. |
| Friends.QRCodeRoundTrip | SwiftLock/Models/Friend.swift:87-153 | Decoding the QR text of a friend with a non-empty name and a valid id gives back the same friend. |
| Friends.EmptyNameRejected | SwiftLock/Models/Friend.swift:99 | The QR text of a friend with an empty name does not decode. |
| Friends.FromRecord | SwiftLock/Models/Friend.swift:25-34 | `init(map:)` succeeds exactly when the stored id text is a valid id, and keeps the name and the text. |
| Friends.RecordRoundTrip | SwiftLock/Models/Friend.swift:25-39 | A friend with a valid id reads back from its record unchanged. |
| FriendLists.InsertPosition | SwiftLock/Models/FriendsDatabase.swift:50-59 | The position is before the first friend whose name compares descending to the new one, or at the end. |
| FriendLists.InsertSorted | SwiftLock/Models/FriendsDatabase.swift:50-59 | The loop with its early return puts the friend at that position and keeps the others around it. |
| FriendLists.InsertedAddsOne | SwiftLock/Models/FriendsDatabase.swift:50-59 | The result is the old list plus the friend, as a multiset. Taking the friend out gives the old list in order. |
| FriendLists.InsertStable | SwiftLock/Models/FriendsDatabase.swift:51-52 | In a sorted list, the friend goes after exactly the friends whose names do not sort after its own, equal names included. |
| FriendLists.InsertKeepsSorted | SwiftLock/Models/FriendsDatabase.swift:50-59 | Under a strict weak order, inserting into a sorted list keeps it sorted. |
| FriendLists.NewUserDatabaseStaysSorted | SwiftLock/Models/UserDatabase.swift:18-45 | Starting from `init()`, any sequence of `insertSorted` calls under a strict weak order gives a sorted list holding exactly the friends inserted. |
| FriendLists.InsertFriend | SwiftLock/Models/UserDatabase.swift:36-45 | The friend is inserted at its sorted position. The preferences are unchanged, and sortedness is kept. |
| FriendLists.InsertFriends | SwiftLock/Models/UserDatabase.swift:36-45 | Calling `insertSorted` for each friend in turn keeps the preferences and inserts every friend, in order. |
| FriendLists.InsertedAllSorted | SwiftLock/Models/UserDatabase.swift:36-45 | Under a strict weak order, inserting several friends into a sorted list keeps it sorted. The result is the old list plus the new friends, as a multiset. |
| FriendLists.FriendsOf | SwiftLock/Models/FriendsDatabase.swift:76-77 | At most one friend per record, each with a valid id. |
| FriendLists.FriendsOfRecords | SwiftLock/Models/FriendsDatabase.swift:76-77 | Friends with valid ids are read back from their records unchanged and in order. |
| FriendLists.UpdateFriendsFromDb | SwiftLock/Models/FriendsDatabase.swift:64-82 | `databaseEncryptedBySomebodyElse` exactly when the file decrypts but its sender is not the owner. A success needs a decryption sent by the owner, and every friend has a valid id. |
| FriendLists.OpenFriendsDatabase | SwiftLock/Models/FriendsDatabase.swift:36-45 | `invalidDbURL` exactly for a non-file URL. Otherwise the friends loaded, or none when loading fails. |
| FriendLists.SaveFriendList | SwiftLock/Models/FriendsDatabase.swift:87-99 | `jsonMappingError` exactly when the friends cannot be turned into JSON. Any other failure is a miniLock failure. A saved database is the friends' JSON in UTF-8, encrypted by the owner to the owner alone, and is recognised as a miniLock file. |
| FriendLists.SaveLoadRoundTrip | SwiftLock/Models/FriendsDatabase.swift:36-99 | The database the app saves loads back. It passes the sender check, and opening it gives the same friends in the same order, with the same owner. |

## Left out

- Cryptography, encodings and JSON: libsodium's secretbox, box and key derivation, BLAKE2s, Base58, Base64, UTF-8 and ObjectMapper are foreign code. They are functions passed in, constrained only by the `...Lawful` predicates of `Primitives`. `Primitives.BoxAuthentic` is assumed only where several recipients share a header.
- Randomness: `randombytes_buf` and `crypto_box_keypair` become the `Randomness` parameter. The round trips assume distinct recipient nonces.
- File system: handles, seeking, temporary files (`createUniqueFile`, `mkstempsTemplate`), deferred clean-up and source deletion. A file is a byte sequence. In `Encryptor.EncryptToDirectory`, one `created` flag stands for both the creation inside `createNewFile` and the second `FileManager.createFile` on the chosen path (FileEncryptor.swift line 69); both failures throw `couldNotCreateFile`, so the model does not tell them apart. A destination directory is its own name, the names in it and the names beside it in its parent (`FileNames.Directory`). The directory itself always exists, and creation outcomes are boolean parameters. Names containing `/`, which would reach into subdirectories, are not modelled. The read-ahead over a handle is a cursor over the bytes.
- Progress reports and `MiniLockProcessDelegate`: these are floating-point ratios sent to a delegate.
- The decryptor's `_processStatus`: it is never advanced, so the "decrypt once" rule has no effect.
- The block decryptor: its source is not part of this model. `Stream.Decrypt` models it as the mirror of the encryptor's framing and status rules.
- The header length: the end-to-end round trips (`RoundTrip.OpenContainer`, `RoundTrip.DataRoundTrip`, `RoundTrip.FileRoundTrip`, `FriendLists.SaveLoadRoundTrip`) assume `RoundTrip.HeaderFits`: for every 32-byte ciphertext digest, the JSON header for these recipients is shorter than 2^32 bytes. The writer keeps only the low 4 bytes of a longer header's size, and `Container.OversizedHeaderMisread` shows that such a file is misread. The length laws of Base64, ObjectMapper and the box that would bound the header size are not modelled, so the assumption is stated rather than derived.
- The 33-byte id given where libsodium reads a 32-byte public key: modelled as its first 32 bytes (`Identity.BoxKey`).
- Decryptor.EmbeddedName: `String(cString:encoding:)` is modelled as UTF-8 decoding of the bytes before the first NUL. A name cut inside a multi-byte character may fail to decode, as `RoundTrip.PaddedNameCut` states. A decrypted first block with no NUL makes `String(cString:)` read past the end of the buffer, which has no defined result. The model treats it as a name that cannot be decoded (`couldNotDecodeFileName`). The encryptor always writes a final NUL, so only a container from another writer reaches this case.
- Text.Adding: the model chunks the text by Unicode scalars, but Swift's `Character` is an extended grapheme cluster. Text with combining marks, emoji sequences or `\r\n` is cut at different places in Swift, so the result matches only for text whose grapheme clusters are single scalars.
- FileNames.SplitExtension: Foundation's `pathExtension` is approximated as the text after the last `.` when that is not the first character. Names with trailing slashes or several leading dots are not modelled.
- Friends.DecodeQRCodeScheme: the match length is given in characters, but `NSRange` counts UTF-16 code units. Names with characters outside the Basic Multilingual Plane, or with combining sequences, are not modelled. Neither is ICU's `$` matching before a final line terminator.
- The QR image itself: `qrCode(ofSize:)`, `qrCodeCI` and its cache are image generation.
- FriendLists.FriendsOf: ObjectMapper's array mapping is assumed to drop the records whose `init(map:)` throws. JSON records missing a field are not modelled.
- The comparison `localizedCaseInsensitiveCompare` depends on the locale. It is the `After` parameter, and sortedness and stability are proved for any strict weak order.
- The `didSet` on `FriendsDatabase.friends`, which saves on every change, is not modelled. Neither is the replace-with-backup step of `saveFriendListToDb`. Saving is modelled up to the encrypted bytes.
- `UserDatabase`'s JSON mapping and the content of `UserPreferences`: the preferences are a type parameter.
- FriendLists.UpdateFriendsFromDb: a decryptor that cannot be created, or a file that cannot be read, is one `None` input.
