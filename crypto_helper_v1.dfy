/**
 * `CryptoHelperV1` (version 1): PBKDF2-SHA-256 over a fixed salt with 1000
 * iterations, a random 16-byte IV, and the frame IV ‖ sealed bytes.
 */
module CryptoHelperV1 {
  import opened Wrappers
  import opened JsText
  import opened Bytes
  import opened Primitives

  const VectorSize: nat := 16
  const Iterations: nat := 1000
  /** `new TextEncoder().encode('XHWnDAT6ehMVY2zD')`, the salt of every version-1 key: the ASCII bytes of that text. */
  const Salt: Bytes := [88, 72, 87, 110, 68, 65, 84, 54, 101, 104, 77, 86, 89, 50, 122, 68]

  /** `deriveKey` */
  function DeriveKey(p: Platform, password: Text): Bytes {
    p.pbkdf2(Sha256, Iterations, Salt, p.utf8Encode(password))
  }

  datatype Frame = Frame(vector: Bytes, sealed: Bytes)

  /**
   * The two slices `decryptFromBase64` cuts from a decoded frame. Slicing
   * clamps, so any byte string splits, and no byte is lost or repeated.
   */
  function SplitFrame(bytes: Bytes): (f: Frame)
    ensures f.vector + f.sealed == bytes
    ensures |f.vector| == Min(VectorSize, |bytes|)
  {
    Frame(Slice(bytes, 0, VectorSize), SliceFrom(bytes, VectorSize))
  }

  /** Splitting recovers the IV and sealed bytes that encryption laid down. */
  lemma SplitFrameInvertsAssembly(vector: Bytes, sealed: Bytes)
    requires |vector| == VectorSize
    ensures SplitFrame(vector + sealed) == Frame(vector, sealed)
  {
    var f := SplitFrame(vector + sealed);
    assert f.vector == (vector + sealed)[..VectorSize] == vector;
  }

  /** What `encryptToBase64` returns for the IV drawn by `getRandomValues`: base64 of IV ‖ sealed. */
  function Encryption(p: Platform, text: Text, password: Text, vector: Bytes): Text {
    p.base64Encode(vector + p.seal(DeriveKey(p, password), vector, p.utf8Encode(text)))
  }

  /**
   * `encryptToBase64`: allocates `finalBytes`, fills it with the IV and then
   * the sealed bytes, and base64-encodes its binary string.
   */
  method EncryptToBase64(p: Platform, text: Text, password: Text, vector: Bytes) returns (base64: Text)
    ensures base64 == Encryption(p, text, password, vector)
  {
    var key := DeriveKey(p, password);
    var textBytesToEncrypt := p.utf8Encode(text);
    var encryptedBytes := p.seal(key, vector, textBytesToEncrypt);
    var finalBytes := new byte[|vector| + |encryptedBytes|];
    Set(finalBytes, vector, 0);
    Set(finalBytes, encryptedBytes, |vector|);
    assert finalBytes[..|vector|] == vector;
    assert finalBytes[|vector|..] == encryptedBytes;
    assert finalBytes[..] == vector + encryptedBytes by {
      assert finalBytes[..] == finalBytes[..|vector|] + finalBytes[|vector|..];
    }
    var binary := ConvertToString(finalBytes);
    LowBytesInvertsCharCodes(finalBytes[..]);
    base64 := Btoa(p, binary);
  }

  /** What `decryptFromBase64` returns: split IV and sealed bytes, then open. */
  function Decryption(p: Platform, base64Encoded: Text, password: Text): Option<Text> {
    var frame := SplitFrame(p.base64Decode(base64Encoded));
    match p.open(DeriveKey(p, password), frame.vector, frame.sealed)
    case None => None
    case Some(plain) => Some(p.utf8Decode(plain))
  }

  /** `decryptFromBase64`: every failure of the cipher comes back as `None` (the tool's `null`). */
  method DecryptFromBase64(p: Platform, base64Encoded: Text, password: Text) returns (r: Option<Text>)
    ensures r == Decryption(p, base64Encoded, password)
  {
    var encryptedBytes := StringToArray(Atob(p, base64Encoded));
    var vector := Slice(encryptedBytes, 0, VectorSize);
    var encryptedTextBytes := SliceFrom(encryptedBytes, VectorSize);
    var key := DeriveKey(p, password);
    var decryptedBytes := p.open(key, vector, encryptedTextBytes);
    r := match decryptedBytes
      case None => None
      case Some(plain) => Some(p.utf8Decode(plain));
  }

  /** Decrypting this helper's own output with the same password gives the plaintext back. */
  lemma DecryptionInvertsEncryption(p: Platform, text: Text, password: Text, vector: Bytes)
    requires Sound(p)
    requires |vector| == VectorSize
    requires p.utf8Decode(p.utf8Encode(text)) == text
    ensures Decryption(p, Encryption(p, text, password, vector), password) == Some(text)
  {
    var sealed := p.seal(DeriveKey(p, password), vector, p.utf8Encode(text));
    assert p.base64Decode(Encryption(p, text, password, vector)) == vector + sealed;
    SplitFrameInvertsAssembly(vector, sealed);
  }

  /** The decoded frame is as long as its parts: 16-byte IV, the UTF-8 plaintext and the tag. */
  lemma EncryptionFrameLength(p: Platform, text: Text, password: Text, vector: Bytes)
    requires Sound(p)
    ensures |p.base64Decode(Encryption(p, text, password, vector))| == |vector| + |p.utf8Encode(text)| + TagLength
  {
    var sealed := p.seal(DeriveKey(p, password), vector, p.utf8Encode(text));
    assert |sealed| == |p.utf8Encode(text)| + TagLength;
    assert p.base64Decode(Encryption(p, text, password, vector)) == vector + sealed;
  }

  /** A frame too short for the IV and the tag is rejected, not read out of range. */
  lemma ShortFrameFails(p: Platform, base64Encoded: Text, password: Text)
    requires Sound(p)
    requires |p.base64Decode(base64Encoded)| < VectorSize + TagLength
    ensures Decryption(p, base64Encoded, password) == None
  {
    var frame := SplitFrame(p.base64Decode(base64Encoded));
    assert |frame.sealed| < TagLength;
  }
}
