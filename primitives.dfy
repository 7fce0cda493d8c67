/**
 * The platform services the helpers call but do not implement: UTF-8
 * `TextEncoder`/`TextDecoder`, Node's `Buffer` base64 codec, SHA-256,
 * PBKDF2 and AES-GCM from `webcrypto.subtle`. They are passed in as a value
 * so that every property below is stated for any platform satisfying
 * `Sound`, never for a particular implementation.
 */
module Primitives {
  import opened Wrappers
  import opened JsText
  import opened Bytes

  datatype Hash = Sha256 | Sha512

  /** AES-GCM with a 128-bit tag: each sealed message is 16 bytes longer than the plaintext. */
  const TagLength: nat := 16

  datatype Platform = Platform(
    utf8Encode: Text -> Bytes,                    // new TextEncoder().encode
    utf8Decode: Bytes -> Text,                    // new TextDecoder().decode (never throws)
    base64Encode: Bytes -> Text,                  // Buffer#toString('base64')
    base64Decode: Text -> Bytes,                  // Buffer.from(s, 'base64') (lenient, never throws)
    digest: Bytes -> Bytes,                       // subtle.digest SHA-256
    pbkdf2: (Hash, nat, Bytes, Bytes) -> Bytes,   // subtle.deriveKey: hash, iterations, salt, password bytes
    seal: (Bytes, Bytes, Bytes) -> Bytes,         // subtle.encrypt AES-GCM: key, iv, plaintext
    open: (Bytes, Bytes, Bytes) -> Option<Bytes>) // subtle.decrypt AES-GCM: key, iv, ciphertext; None where it rejects

  /**
   * What the helpers rely on: base64 decoding undoes encoding and encoding
   * only emits the base64 alphabet; opening a sealed message with the same
   * key and IV gives the plaintext back; a sealed message carries a 16-byte
   * tag, and input shorter than the tag is always rejected.
   */
  ghost predicate Sound(p: Platform) {
    && (forall b :: p.base64Decode(p.base64Encode(b)) == b)
    && (forall b {:trigger p.base64Encode(b)} :: IsBase64(p.base64Encode(b)))
    && (forall key, iv, m :: p.open(key, iv, p.seal(key, iv, m)) == Some(m))
    && (forall key, iv, m :: |p.seal(key, iv, m)| == |m| + TagLength)
    && (forall key, iv, c :: |c| < TagLength ==> p.open(key, iv, c) == None)
  }

  /** `btoa(s)` = `Buffer.from(s, 'binary').toString('base64')`: low byte of each unit, then base64. */
  function Btoa(p: Platform, s: Text): (r: Text)
    ensures Sound(p) ==> IsBase64(r)
    ensures Sound(p) ==> p.base64Decode(r) == LowBytes(s)
  {
    p.base64Encode(LowBytes(s))
  }

  /** `atob(s)` = `Buffer.from(s, 'base64').toString('binary')`: always a binary string. */
  function Atob(p: Platform, s: Text): (r: Text)
    ensures forall i :: 0 <= i < |r| ==> r[i] < 256
    ensures LowBytes(r) == p.base64Decode(s)
  {
    LowBytesInvertsCharCodes(p.base64Decode(s));
    CharCodes(p.base64Decode(s))
  }

  /** `atob` undoes `btoa` on every binary string (every code unit below 256). */
  lemma AtobInvertsBtoa(p: Platform, s: Text)
    requires Sound(p)
    requires forall i :: 0 <= i < |s| ==> s[i] < 256
    ensures Atob(p, Btoa(p, s)) == s
  {
    assert p.base64Decode(Btoa(p, s)) == LowBytes(s);
    CharCodesInvertsLowBytes(s);
  }
}
