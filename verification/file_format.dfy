/** The constants of the miniLock container format and the error vocabulary shared by its components. */
module FileFormat {
  import opened Bytes

  /** Header `version` written by the encryptor. */
  const Version: int := 1
  /** Largest plaintext block framed in the payload (2^20 bytes). */
  const PlainTextBlockMaxBytes: nat := 1048576
  /** Length of the fixed prefix of the stream nonce. */
  const FileNonceBytes: nat := 16
  /** Length of the little-endian plaintext-length tag in front of every framed block. */
  const BlockSizeTagLength: nat := 4
  /** Longest file name embedded in the first payload block; one more byte is reserved for a NUL. */
  const FileNameMaxLength: nat := 255
  /** The extension the file encryptor appends to the source name. */
  const FileExtension: string := "miniLock"
  /** The eight bytes "miniLock" that open every container. */
  const MagicBytes: Bytes := [0x6d, 0x69, 0x6e, 0x69, 0x4c, 0x6f, 0x63, 0x6b]
  /** Length of the little-endian header-length field that follows the magic bytes. */
  const HeaderBytesLength: nat := 4

  /** libsodium's secretbox sizes (XSalsa20-Poly1305). */
  const SecretBoxKeyBytes: nat := 32
  const SecretBoxNonceBytes: nat := 24
  const SecretBoxMacBytes: nat := 16

  /** libsodium's box sizes (Curve25519-XSalsa20-Poly1305). */
  const BoxNonceBytes: nat := 24
  const BoxPublicKeyBytes: nat := 32
  const BoxSecretKeyBytes: nat := 32
  const BoxMacBytes: nat := 16

  /** BLAKE2s output length of the running ciphertext hash. */
  const Blake2sOutputLength: nat := 32
  /** Length of the BLAKE2s checksum appended to a public key in an Id. */
  const PublicKeyCheckSumBytes: nat := 1

  /** The status of an encryption or decryption process. */
  datatype ProcessStatus = Incomplete | Succeeded | Failed

  /** The errors the file-level operations throw. */
  datatype MiniLockError =
    | RecepientListEmpty
    | NotAFileURL
    | FileNameEmpty
    | CouldNotCreateFile
    | SourceFileEmpty
    | CouldNotConstructHeader
    | CorruptMiniLockFile
    | NotARecipient
    | CouldNotDecodeFileName
    | HeaderParsingError
    | ProcessAlreadyComplete

  /** The errors the block-level stream operations throw. */
  datatype CryptoError = ProcessComplete | InputSizeInvalid | DecryptionFailed | MacVerificationFailed

  /** Anything a file-level operation can throw: its own errors, a stream error passed through,
      or a file-system error from Foundation. */
  datatype Failure = MiniLock(error: MiniLockError) | Crypto(cryptoError: CryptoError) | FileSystem
}
