/**
 * `CryptoHelperV2` (version 2, current): PBKDF2-SHA-512 over a random salt
 * with a configured iteration count, a random IV, and the frame
 * IV ‖ salt ‖ sealed bytes. The class only holds its three read-only
 * settings, so it is a value here.
 */
module CryptoHelperV2 {
  import opened Wrappers
  import opened JsText
  import opened Bytes
  import opened Primitives

  /** The constructor's `vectorSize`, `saltSize` and `iterations`. */
  datatype Config = Config(vectorSize: nat, saltSize: nat, iterations: nat)

  /** `deriveKey` */
  function DeriveKey(p: Platform, cfg: Config, password: Text, salt: Bytes): Bytes {
    p.pbkdf2(Sha512, cfg.iterations, salt, p.utf8Encode(password))
  }

  datatype Frame = Frame(vector: Bytes, salt: Bytes, sealed: Bytes)

  /**
   * The three slices `decryptFromBase64` cuts from a decoded frame. Slicing
   * clamps, so any byte string splits, and no byte is lost or repeated.
   */
  function SplitFrame(cfg: Config, bytes: Bytes): (f: Frame)
    ensures f.vector + f.salt + f.sealed == bytes
    ensures |f.vector| == Min(cfg.vectorSize, |bytes|)
    ensures |f.salt| == Min(cfg.saltSize, |bytes| - |f.vector|)
  {
    Frame(Slice(bytes, 0, cfg.vectorSize),
          Slice(bytes, cfg.vectorSize, cfg.vectorSize + cfg.saltSize),
          SliceFrom(bytes, cfg.vectorSize + cfg.saltSize))
  }

  /** Splitting recovers the IV, salt and sealed bytes that encryption laid down. */
  lemma SplitFrameInvertsAssembly(cfg: Config, vector: Bytes, salt: Bytes, sealed: Bytes)
    requires |vector| == cfg.vectorSize && |salt| == cfg.saltSize
    ensures SplitFrame(cfg, vector + salt + sealed) == Frame(vector, salt, sealed)
  {
    var bytes := vector + salt + sealed;
    var f := SplitFrame(cfg, bytes);
    assert f.vector == bytes[..|vector|] == vector;
    assert f.salt == bytes[|vector|..|vector| + |salt|] == salt;
    assert f.sealed == bytes[|vector| + |salt|..] == sealed;
  }

  /**
   * What `encryptToBase64` returns for the salt and IV drawn by
   * `getRandomValues`: base64 of IV ‖ salt ‖ sealed.
   */
  function Encryption(cfg: Config, p: Platform, text: Text, password: Text, salt: Bytes, vector: Bytes): Text {
    p.base64Encode(vector + salt + p.seal(DeriveKey(p, cfg, password, salt), vector, p.utf8Encode(text)))
  }

  /**
   * `encryptToBase64`: allocates `finalBytes`, fills it with the IV, the salt
   * and the sealed bytes at successive offsets, and base64-encodes its
   * binary string.
   */
  method EncryptToBase64(cfg: Config, p: Platform, text: Text, password: Text, salt: Bytes, vector: Bytes)
    returns (base64: Text)
    ensures base64 == Encryption(cfg, p, text, password, salt, vector)
  {
    var key := DeriveKey(p, cfg, password, salt);
    var textBytesToEncrypt := p.utf8Encode(text);
    var encryptedBytes := p.seal(key, vector, textBytesToEncrypt);
    var finalBytes := new byte[|vector| + |salt| + |encryptedBytes|];
    Set(finalBytes, vector, 0);
    Set(finalBytes, salt, |vector|);
    Set(finalBytes, encryptedBytes, |vector| + |salt|);
    assert finalBytes[..|vector|] == vector;
    assert finalBytes[|vector|..|vector| + |salt|] == salt;
    assert finalBytes[|vector| + |salt|..] == encryptedBytes;
    assert finalBytes[..] == vector + salt + encryptedBytes by {
      assert finalBytes[..] == finalBytes[..|vector|] + finalBytes[|vector|..|vector| + |salt|] + finalBytes[|vector| + |salt|..];
    }
    var binary := ConvertToString(finalBytes);
    LowBytesInvertsCharCodes(finalBytes[..]);
    base64 := Btoa(p, binary);
  }

  /** What `decryptFromBase64` returns: split IV, salt and sealed bytes, derive the key from that salt, then open. */
  function Decryption(cfg: Config, p: Platform, base64Encoded: Text, password: Text): Option<Text> {
    var frame := SplitFrame(cfg, p.base64Decode(base64Encoded));
    match p.open(DeriveKey(p, cfg, password, frame.salt), frame.vector, frame.sealed)
    case None => None
    case Some(plain) => Some(p.utf8Decode(plain))
  }

  /** `decryptFromBase64`: every failure of the cipher comes back as `None` (the tool's `null`). */
  method DecryptFromBase64(cfg: Config, p: Platform, base64Encoded: Text, password: Text) returns (r: Option<Text>)
    ensures r == Decryption(cfg, p, base64Encoded, password)
  {
    var encryptedBytes := StringToArray(Atob(p, base64Encoded));
    var vector := Slice(encryptedBytes, 0, cfg.vectorSize);
    var salt := Slice(encryptedBytes, cfg.vectorSize, cfg.vectorSize + cfg.saltSize);
    var encryptedTextBytes := SliceFrom(encryptedBytes, cfg.vectorSize + cfg.saltSize);
    var key := DeriveKey(p, cfg, password, salt);
    var decryptedBytes := p.open(key, vector, encryptedTextBytes);
    r := match decryptedBytes
      case None => None
      case Some(plain) => Some(p.utf8Decode(plain));
  }

  /** Decrypting this helper's own output with the same settings and password gives the plaintext back. */
  lemma DecryptionInvertsEncryption(cfg: Config, p: Platform, text: Text, password: Text, salt: Bytes, vector: Bytes)
    requires Sound(p)
    requires |salt| == cfg.saltSize && |vector| == cfg.vectorSize
    requires p.utf8Decode(p.utf8Encode(text)) == text
    ensures Decryption(cfg, p, Encryption(cfg, p, text, password, salt, vector), password) == Some(text)
  {
    var sealed := p.seal(DeriveKey(p, cfg, password, salt), vector, p.utf8Encode(text));
    assert p.base64Decode(Encryption(cfg, p, text, password, salt, vector)) == vector + salt + sealed;
    SplitFrameInvertsAssembly(cfg, vector, salt, sealed);
  }

  /** The decoded frame is as long as its parts: IV, salt, the UTF-8 plaintext and the tag. */
  lemma EncryptionFrameLength(cfg: Config, p: Platform, text: Text, password: Text, salt: Bytes, vector: Bytes)
    requires Sound(p)
    ensures |p.base64Decode(Encryption(cfg, p, text, password, salt, vector))|
         == |vector| + |salt| + |p.utf8Encode(text)| + TagLength
  {
    var sealed := p.seal(DeriveKey(p, cfg, password, salt), vector, p.utf8Encode(text));
    assert |sealed| == |p.utf8Encode(text)| + TagLength;
    assert p.base64Decode(Encryption(cfg, p, text, password, salt, vector)) == vector + salt + sealed;
  }

  /** A frame too short for the IV, the salt and the tag is rejected, not read out of range. */
  lemma ShortFrameFails(cfg: Config, p: Platform, base64Encoded: Text, password: Text)
    requires Sound(p)
    requires |p.base64Decode(base64Encoded)| < cfg.vectorSize + cfg.saltSize + TagLength
    ensures Decryption(cfg, p, base64Encoded, password) == None
  {
    var frame := SplitFrame(cfg, p.base64Decode(base64Encoded));
    assert |frame.sealed| < TagLength;
  }
}
