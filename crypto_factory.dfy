/**
 * `CryptoFactory`: picks the helper for a parsed in-place marker (by its
 * generation number) or for a whole-note record (by its version tag).
 * Generation 2 and tag "2.0" both get the one shared `cryptoV2`, configured
 * with a 16-byte IV, a 16-byte salt and 210000 iterations.
 */
module CryptoFactory {
  import opened Wrappers
  import opened JsText
  import opened Primitives
  import opened InPlace
  import opened Bytes
  import CryptoHelperObsolete
  import CryptoHelperV1
  import CryptoHelperV2

  /** The three helper classes; a helper only holds read-only settings, so it is a value. */
  datatype Helper = Obsolete | V1 | V2(config: CryptoHelperV2.Config)

  /** The settings of the shared `cryptoV2` instance. */
  const CryptoV2: CryptoHelperV2.Config := CryptoHelperV2.Config(16, 16, 210000)

  /** The two errors the factory throws, with the offending value. */
  datatype Error = UnsupportedVersion(version: int) | UnsupportedFileVersion(tag: Text)

  /** A whole-note record; its `version` is whatever text the record holds. */
  datatype FileData = FileData(version: Text, hint: Text, encodedData: Text)

  const FileVersion1: Text := [0x31, 0x2E, 0x30]   // "1.0"
  const FileVersion2: Text := [0x32, 0x2E, 0x30]   // "2.0"

  /** The generation number a helper reads and writes. */
  function Generation(h: Helper): int {
    match h
    case Obsolete => 0
    case V1 => 1
    case V2(_) => 2
  }

  /**
   * `build`: generations 0, 1 and 2 get a helper of that generation (2 the
   * shared instance); every other number is an `UnsupportedVersion` error
   * naming it.
   */
  function Build(decryptable: Decryptable): (r: Result<Helper, Error>)
    ensures r.Success? <==> 0 <= decryptable.version <= 2
    ensures r.Success? ==> Generation(r.value) == decryptable.version
    ensures r.Success? && r.value.V2? ==> r.value.config == CryptoV2
    ensures r.Failure? ==> r.error == UnsupportedVersion(decryptable.version)
  {
    if decryptable.version == 0 then Success(Obsolete)
    else if decryptable.version == 1 then Success(V1)
    else if decryptable.version == 2 then Success(V2(CryptoV2))
    else Failure(UnsupportedVersion(decryptable.version))
  }

  /**
   * `buildForFile`: tag "1.0" dispatches like generation 1 and "2.0" like
   * generation 2; no tag reaches the obsolete helper, and every other tag
   * is an `UnsupportedFileVersion` error naming it.
   */
  function BuildForFile(fileData: FileData): (r: Result<Helper, Error>)
    ensures r.Success? <==> fileData.version == FileVersion1 || fileData.version == FileVersion2
    ensures fileData.version == FileVersion1 ==> r == Build(Decryptable(1, fileData.hint, fileData.encodedData))
    ensures fileData.version == FileVersion2 ==> r == Build(Decryptable(2, fileData.hint, fileData.encodedData))
    ensures r.Success? ==> !r.value.Obsolete?
    ensures r.Failure? ==> r.error == UnsupportedFileVersion(fileData.version)
  {
    if fileData.version == FileVersion1 then Success(V1)
    else if fileData.version == FileVersion2 then Success(V2(CryptoV2))
    else Failure(UnsupportedFileVersion(fileData.version))
  }

  /** `helper.decryptFromBase64(...)` through the common interface: the chosen helper's decryption. */
  function Decrypt(h: Helper, p: Platform, base64Encoded: Text, password: Text): (r: Option<Text>)
    ensures Sound(p) && |p.base64Decode(base64Encoded)| < TagLength ==> r.None?
  {
    match h
    case Obsolete => CryptoHelperObsolete.Decryption(p, base64Encoded, password)
    case V1 => CryptoHelperV1.Decryption(p, base64Encoded, password)
    case V2(cfg) => CryptoHelperV2.Decryption(cfg, p, base64Encoded, password)
  }

  /** `helper.encryptToBase64(...)` through the common interface, given the random draws a generation uses. */
  function Encrypt(h: Helper, p: Platform, text: Text, password: Text, salt: Bytes, vector: Bytes): (r: Text)
    ensures Sound(p) ==> IsBase64(r)
  {
    match h
    case Obsolete => CryptoHelperObsolete.EncryptToBase64(p, text, password)
    case V1 => CryptoHelperV1.Encryption(p, text, password, vector)
    case V2(cfg) => CryptoHelperV2.Encryption(cfg, p, text, password, salt, vector)
  }

  /** The random draws have the lengths the helper's frame layout expects (the obsolete helper uses none). */
  predicate FitsDraws(h: Helper, salt: Bytes, vector: Bytes) {
    match h
    case Obsolete => true
    case V1 => |vector| == CryptoHelperV1.VectorSize
    case V2(cfg) => |vector| == cfg.vectorSize && |salt| == cfg.saltSize
  }

  /** Every helper decrypts what it encrypted, under the same password. */
  lemma DecryptInvertsEncrypt(h: Helper, p: Platform, text: Text, password: Text, salt: Bytes, vector: Bytes)
    requires Sound(p) && FitsDraws(h, salt, vector)
    requires p.utf8Decode(p.utf8Encode(text)) == text
    ensures Decrypt(h, p, Encrypt(h, p, text, password, salt, vector), password) == Some(text)
  {
    match h
    case Obsolete => CryptoHelperObsolete.DecryptionInvertsEncryption(p, text, password);
    case V1 => CryptoHelperV1.DecryptionInvertsEncryption(p, text, password, vector);
    case V2(cfg) => CryptoHelperV2.DecryptionInvertsEncryption(cfg, p, text, password, salt, vector);
  }

  /** The record `encrypt` writes for a whole note: tag "2.0", no hint, the base64 frame. */
  function WholeNoteRecord(base64: Text): FileData {
    FileData(FileVersion2, [], base64)
  }

  /**
   * Whatever `parseInPlace` accepts, `build` accepts: the parser only ever
   * yields generations 0 to 2, so the factory's error is unreachable from a
   * parsed marker.
   */
  lemma ParsedMarkerIsBuildable(text: Text)
    requires ParseInPlace(text).Some?
    ensures Build(ParseInPlace(text).value).Success?
    ensures Generation(Build(ParseInPlace(text).value).value) == ParseInPlace(text).value.version
  {
  }

  /** The record `encrypt` writes is served by the shared version-2 helper. */
  lemma WholeNoteRecordIsBuildable(base64: Text)
    ensures BuildForFile(WholeNoteRecord(base64)) == Success(V2(CryptoV2))
  {
  }
}
