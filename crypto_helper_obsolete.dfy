/**
 * `CryptoHelperObsolete` (version 0): the key is the SHA-256 digest of the
 * password, the IV is one fixed 12-byte constant, and the frame is the
 * sealed bytes alone.
 */
module CryptoHelperObsolete {
  import opened Wrappers
  import opened JsText
  import opened Bytes
  import opened Primitives

  /** The IV every version-0 message was sealed with. */
  const Iv: Bytes := [196, 190, 240, 190, 188, 78, 41, 132, 15, 220, 84, 211]

  /** `buildKey`: the raw SHA-256 digest of the UTF-8 password. */
  function BuildKey(p: Platform, password: Text): Bytes {
    p.digest(p.utf8Encode(password))
  }

  /** `encryptToBase64`: `btoa(String.fromCharCode(...sealed))`. */
  function EncryptToBase64(p: Platform, text: Text, password: Text): (r: Text)
    ensures r == p.base64Encode(p.seal(BuildKey(p, password), Iv, p.utf8Encode(text)))
  {
    var sealed := p.seal(BuildKey(p, password), Iv, p.utf8Encode(text));
    LowBytesInvertsCharCodes(sealed);
    Btoa(p, CharCodes(sealed))
  }

  /** What `decryptFromBase64` returns: the frame is opened whole under the fixed IV. */
  function Decryption(p: Platform, base64Encoded: Text, password: Text): Option<Text> {
    match p.open(BuildKey(p, password), Iv, p.base64Decode(base64Encoded))
    case None => None
    case Some(plain) => Some(p.utf8Decode(plain))
  }

  /** `decryptFromBase64`: every failure of the cipher comes back as `None` (the tool's `null`). */
  method DecryptFromBase64(p: Platform, base64Encoded: Text, password: Text) returns (r: Option<Text>)
    ensures r == Decryption(p, base64Encoded, password)
  {
    var bytesToDecrypt := StringToArray(Atob(p, base64Encoded));
    var key := BuildKey(p, password);
    var decryptedBytes := p.open(key, Iv, bytesToDecrypt);
    r := match decryptedBytes
      case None => None
      case Some(plain) => Some(p.utf8Decode(plain));
  }

  /** Decrypting this helper's own output with the same password gives the plaintext back. */
  lemma DecryptionInvertsEncryption(p: Platform, text: Text, password: Text)
    requires Sound(p)
    requires p.utf8Decode(p.utf8Encode(text)) == text
    ensures Decryption(p, EncryptToBase64(p, text, password), password) == Some(text)
  {
    EncryptionFrame(p, text, password);
  }

  /**
   * A version-0 frame is the sealed bytes alone, with no IV and no salt:
   * 16 bytes longer than the UTF-8 note.
   */
  lemma EncryptionFrame(p: Platform, text: Text, password: Text)
    requires Sound(p)
    ensures p.base64Decode(EncryptToBase64(p, text, password))
         == p.seal(BuildKey(p, password), Iv, p.utf8Encode(text))
    ensures |p.base64Decode(EncryptToBase64(p, text, password))| == |p.utf8Encode(text)| + TagLength
  {
    var sealed := p.seal(BuildKey(p, password), Iv, p.utf8Encode(text));
    assert EncryptToBase64(p, text, password) == p.base64Encode(sealed);
  }

  /** A frame too short to hold the authentication tag is rejected, not read out of range. */
  lemma ShortFrameFails(p: Platform, base64Encoded: Text, password: Text)
    requires Sound(p)
    requires |p.base64Decode(base64Encoded)| < TagLength
    ensures Decryption(p, base64Encoded, password) == None
  {
  }
}
