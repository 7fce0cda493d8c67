/**
 * `CryptoTool`: the `encrypt` and `decrypt` commands without their console
 * I/O. `encrypt` always uses the shared version-2 helper and either wraps
 * the frame in the block-style β markers or puts it in a "2.0" record;
 * `decrypt` parses the markers (or takes the record), asks the factory for
 * the helper and lets it decrypt.
 */
module CryptoTool {
  import opened Wrappers
  import opened JsText
  import opened Bytes
  import opened Primitives
  import opened InPlace
  import opened CryptoFactory
  import CryptoHelperObsolete
  import CryptoHelperV1
  import CryptoHelperV2

  /** Why `decrypt` stops without printing a note. */
  datatype Refusal =
    | MarkersNotFound                 // `parseInPlace` returned null
    | Unsupported(cause: Error)       // the factory threw
    | NotDecrypted                    // the helper returned null: wrong password or damaged frame

  /** What `encrypt --type inplace` prints for the random draws `salt` and `vector`. */
  function InPlaceEncryption(p: Platform, text: Text, password: Text, salt: Bytes, vector: Bytes): Text {
    FormatInPlace(CryptoHelperV2.Encryption(CryptoV2, p, text, password, salt, vector))
  }

  /** What `encrypt --type wholenote` prints (before JSON serialisation). */
  function WholeNoteEncryption(p: Platform, text: Text, password: Text, salt: Bytes, vector: Bytes): FileData {
    WholeNoteRecord(CryptoHelperV2.Encryption(CryptoV2, p, text, password, salt, vector))
  }

  /** The outcome of `decrypt` on text that is not a whole-note record. */
  function InPlaceDecryption(p: Platform, text: Text, password: Text): Result<Text, Refusal> {
    match ParseInPlace(text)
    case None => Failure(MarkersNotFound)
    case Some(decryptable) =>
      match Build(decryptable)
      case Failure(e) => Failure(Unsupported(e))
      case Success(helper) =>
        match Decrypt(helper, p, decryptable.base64CipherText, password)
        case None => Failure(NotDecrypted)
        case Some(note) => Success(note)
  }

  /** The outcome of `decrypt` on a whole-note record. */
  function WholeNoteDecryption(p: Platform, fileData: FileData, password: Text): Result<Text, Refusal> {
    match BuildForFile(fileData)
    case Failure(e) => Failure(Unsupported(e))
    case Success(helper) =>
      match Decrypt(helper, p, fileData.encodedData, password)
      case None => Failure(NotDecrypted)
      case Some(note) => Success(note)
  }

  /** The helper's own `decryptFromBase64`, chosen by the factory's result. */
  method DecryptWith(helper: Helper, p: Platform, base64Encoded: Text, password: Text) returns (r: Option<Text>)
    ensures r == Decrypt(helper, p, base64Encoded, password)
  {
    match helper {
      case Obsolete =>
        r := CryptoHelperObsolete.DecryptFromBase64(p, base64Encoded, password);
      case V1 =>
        r := CryptoHelperV1.DecryptFromBase64(p, base64Encoded, password);
      case V2(cfg) =>
        r := CryptoHelperV2.DecryptFromBase64(cfg, p, base64Encoded, password);
    }
  }

  /** `encrypt` with the in-place output. */
  method EncryptInPlace(p: Platform, text: Text, password: Text, salt: Bytes, vector: Bytes) returns (result: Text)
    ensures result == InPlaceEncryption(p, text, password, salt, vector)
  {
    var base64 := CryptoHelperV2.EncryptToBase64(CryptoV2, p, text, password, salt, vector);
    result := PrefixBeta + base64 + Suffix;
  }

  /** `encrypt` with the whole-note output. */
  method EncryptWholeNote(p: Platform, text: Text, password: Text, salt: Bytes, vector: Bytes) returns (fileData: FileData)
    ensures fileData == WholeNoteEncryption(p, text, password, salt, vector)
  {
    var base64 := CryptoHelperV2.EncryptToBase64(CryptoV2, p, text, password, salt, vector);
    fileData := FileData(FileVersion2, [], base64);
  }

  /** `decrypt` on in-place text. */
  method DecryptInPlace(p: Platform, text: Text, password: Text) returns (r: Result<Text, Refusal>)
    ensures r == InPlaceDecryption(p, text, password)
  {
    var decryptable := ParseInPlace(text);
    if decryptable.None? {
      return Failure(MarkersNotFound);
    }
    var helper := Build(decryptable.value);
    if helper.Failure? {
      return Failure(Unsupported(helper.error));
    }
    var decryptedText := DecryptWith(helper.value, p, decryptable.value.base64CipherText, password);
    if decryptedText.None? {
      return Failure(NotDecrypted);
    }
    r := Success(decryptedText.value);
  }

  /** `decrypt` on a whole-note record. */
  method DecryptWholeNote(p: Platform, fileData: FileData, password: Text) returns (r: Result<Text, Refusal>)
    ensures r == WholeNoteDecryption(p, fileData, password)
  {
    var helper := BuildForFile(fileData);
    if helper.Failure? {
      return Failure(Unsupported(helper.error));
    }
    var decryptedText := DecryptWith(helper.value, p, fileData.encodedData, password);
    if decryptedText.None? {
      return Failure(NotDecrypted);
    }
    r := Success(decryptedText.value);
  }

  /** A base64 frame never opens with the hint marker, so the markers around it parse cleanly. */
  lemma EncryptedFrameParses(h: Helper, p: Platform, text: Text, password: Text, salt: Bytes, vector: Bytes, i: nat, j: nat)
    requires Sound(p)
    requires i < |AllPrefixes| && j < |AllSuffixes|
    ensures ParseInPlace(AllPrefixes[i] + Encrypt(h, p, text, password, salt, vector) + AllSuffixes[j])
         == Some(Decryptable(PrefixGenerations[i], [], Encrypt(h, p, text, password, salt, vector)))
  {
    var base64 := Encrypt(h, p, text, password, salt, vector);
    Base64HasNoHintMarker(base64);
    ParseMarkedFrame(i, j, base64);
  }

  /**
   * The in-place round trip: `decrypt` with the same password prints the
   * note that `encrypt` was given.
   */
  lemma InPlaceRoundTrip(p: Platform, text: Text, password: Text, salt: Bytes, vector: Bytes)
    requires Sound(p)
    requires |salt| == CryptoV2.saltSize && |vector| == CryptoV2.vectorSize
    requires p.utf8Decode(p.utf8Encode(text)) == text
    ensures InPlaceDecryption(p, InPlaceEncryption(p, text, password, salt, vector), password) == Success(text)
  {
    var base64 := CryptoHelperV2.Encryption(CryptoV2, p, text, password, salt, vector);
    assert base64 == Encrypt(V2(CryptoV2), p, text, password, salt, vector);
    EncryptedFrameParses(V2(CryptoV2), p, text, password, salt, vector, 0, 0);
    DecryptInvertsEncrypt(V2(CryptoV2), p, text, password, salt, vector);
  }

  /** The whole-note round trip through the "2.0" record. */
  lemma WholeNoteRoundTrip(p: Platform, text: Text, password: Text, salt: Bytes, vector: Bytes)
    requires Sound(p)
    requires |salt| == CryptoV2.saltSize && |vector| == CryptoV2.vectorSize
    requires p.utf8Decode(p.utf8Encode(text)) == text
    ensures WholeNoteDecryption(p, WholeNoteEncryption(p, text, password, salt, vector), password) == Success(text)
  {
    WholeNoteRecordIsBuildable(CryptoHelperV2.Encryption(CryptoV2, p, text, password, salt, vector));
    DecryptInvertsEncrypt(V2(CryptoV2), p, text, password, salt, vector);
  }

  /**
   * Notes written by any generation, under any of its prefix spellings and
   * either suffix, still decrypt: the prefix picks the helper that wrote the
   * frame.
   */
  lemma MarkedRoundTrip(i: nat, j: nat, p: Platform, text: Text, password: Text, salt: Bytes, vector: Bytes)
    requires Sound(p)
    requires i < |AllPrefixes| && j < |AllSuffixes|
    requires FitsDraws(Build(Decryptable(PrefixGenerations[i], [], [])).value, salt, vector)
    requires p.utf8Decode(p.utf8Encode(text)) == text
    ensures var helper := Build(Decryptable(PrefixGenerations[i], [], [])).value;
      InPlaceDecryption(p, AllPrefixes[i] + Encrypt(helper, p, text, password, salt, vector) + AllSuffixes[j], password)
        == Success(text)
  {
    var helper := Build(Decryptable(PrefixGenerations[i], [], [])).value;
    var base64 := Encrypt(helper, p, text, password, salt, vector);
    EncryptedFrameParses(helper, p, text, password, salt, vector, i, j);
    assert Build(Decryptable(PrefixGenerations[i], [], base64)) == Success(helper);
    DecryptInvertsEncrypt(helper, p, text, password, salt, vector);
  }

  /** `decrypt` never reaches the factory's error on in-place text: the parser only yields generations 0 to 2. */
  lemma InPlaceNeverUnsupported(p: Platform, text: Text, password: Text)
    ensures !InPlaceDecryption(p, text, password).Failure?
         || !InPlaceDecryption(p, text, password).error.Unsupported?
  {
    if ParseInPlace(text).Some? {
      ParsedMarkerIsBuildable(text);
    }
  }

  /** A record with any tag other than "1.0" or "2.0" is refused with that tag. */
  lemma UnknownTagRefused(p: Platform, fileData: FileData, password: Text)
    requires fileData.version != FileVersion1 && fileData.version != FileVersion2
    ensures WholeNoteDecryption(p, fileData, password) == Failure(Unsupported(UnsupportedFileVersion(fileData.version)))
  {
  }
}
