# Meld-encrypt note tool, modelled in Dafny

This project models the core of `crypto-tool.ts`. That command-line tool encrypts and decrypts notes in the formats of the Obsidian "meld-encrypt" plugin. The model covers:

- **Three helper generations.** The obsolete helper (generation 0) uses a SHA-256 password digest and a fixed IV. Generation 1 uses PBKDF2-SHA-256 with a fixed salt, 1000 iterations and a random 16-byte IV. Generation 2 is configurable; the tool's one shared instance uses a 16-byte IV, a 16-byte salt and 210000 iterations of PBKDF2-SHA-512. For each helper the model states the byte layout of its frame (IV, then salt, then the AES-GCM ciphertext with its tag). It also states how the frame is built: the encrypt side fills a fresh `Uint8Array` by `set`. And it states how the frame is taken apart: the decrypt side uses `slice`, whose clamping and negative indices are modelled. Both sides convert between bytes and binary strings (`convertToString`, `stringToArray`, `btoa`, `atob`).
- **In-place markers.** There are six prefixes (`%%🔐β `, `🔐β `, `%%🔐α `, `🔐α `, `%%🔐 `, `🔐 `), two suffixes (` 🔐%%`, ` 🔐`) and the 💡 hint delimiter. `parseInPlace` and the marker text that `encrypt` prints are modelled over UTF-16 code units. So are JavaScript's `substring` (clamping and bound swapping), `indexOf` (position clamping) and `Array.prototype.find`.
- **The factory.** `build` dispatches on the generation number and `buildForFile` on a whole-note record's version tag. Each of their exceptions is modelled as a `Failure` value.
- **The two commands without their console I/O.** `encrypt` always uses the generation-2 helper. `decrypt` takes the parse path or the record path.

The platform services are given as a `Platform` value rather than implemented:

- UTF-8 `TextEncoder`/`TextDecoder`;
- Node's base64 `Buffer` codec;
- `subtle.digest`, PBKDF2 and AES-GCM.

Every property is proved for any platform that satisfies the predicate `Primitives.Sound`. The round-trip results carry two more premises, stated on each of them: (1) the IV and salt draws have the helper's configured lengths, as `getRandomValues(new Uint8Array(n))` always gives; (2) the note itself survives UTF-8 encoding and decoding. `Sound` asks:

- base64 decoding undoes encoding;
- base64 encoding emits only the base64 alphabet;
- AES-GCM opening undoes sealing under the same key and IV;
- sealing adds a 16-byte tag;
- input shorter than the tag is rejected.

The random IV and salt draws (`getRandomValues`) are parameters of the encrypt operations; the round-trip results require them to have the configured lengths.

The main results:

- Every helper decrypts what it encrypted, for draws of the configured lengths and every note that survives UTF-8 encoding and decoding (`CryptoFactory.DecryptInvertsEncrypt`).
- For such draws and notes, `decrypt` prints the note that `encrypt` was given, for both output forms (`CryptoTool.InPlaceRoundTrip`, `CryptoTool.WholeNoteRoundTrip`).
- For such draws and notes, every generation's output, under any prefix spelling and either suffix, decrypts with the helper the prefix names (`CryptoTool.MarkedRoundTrip`).
- `parseInPlace` accepts exactly the texts that start with a known prefix and end with a known suffix. No text starts with two of the prefixes or ends with both suffixes (`InPlace.AtMostOnePrefix`, `InPlace.AtMostOneSuffix`). So the order in which the lists are searched never changes the result.
- Hint splitting follows the code exactly, including the edge cases. An unterminated 💡 stays in the ciphertext. Two adjacent 💡 give an empty hint. When prefix and suffix overlap, `substring` swaps its bounds.

Files, one module each: `wrappers.dfy`, `js_text.dfy` (JavaScript string operations), `bytes.dfy` (byte/string conversion and typed-array operations), `primitives.dfy`, `crypto_helper_obsolete.dfy`, `crypto_helper_v1.dfy`, `crypto_helper_v2.dfy`, `in_place.dfy`, `crypto_factory.dfy`, `crypto_tool.dfy`.

## Model

All source paths are in `jules-tools/obsidian-meld-encrypt/`.

| member | source | states |
|---|---|---|
| JsText.IndexOf | jules-tools/obsidian-meld-encrypt/crypto-tool.ts:264 | `indexOf` returns the first occurrence at or after the clamped start position, or -1 exactly when there is none |
| JsText.Find | jules-tools/obsidian-meld-encrypt/crypto-tool.ts:248-249 | `find` returns nothing exactly when no element matches, otherwise the first element that matches |
| Bytes.CharCodes | jules-tools/obsidian-meld-encrypt/crypto-tool.ts:41 | `String.fromCharCode` over bytes gives a string of the same length whose every code unit equals its byte |
| Bytes.LowBytes | jules-tools/obsidian-meld-encrypt/crypto-tool.ts:103-109 | a `Uint8Array` built from char codes keeps the same length and each code unit modulo 256 |
| Bytes.LowBytesInvertsCharCodes | jules-tools/obsidian-meld-encrypt/crypto-tool.ts:84-109 | turning bytes into a binary string and back gives the same bytes |
| Bytes.CharCodesInvertsLowBytes | jules-tools/obsidian-meld-encrypt/crypto-tool.ts:9-10 | a binary string whose code units are all below 256 survives the trip through bytes unchanged |
| Bytes.ConvertToString | jules-tools/obsidian-meld-encrypt/crypto-tool.ts:84-90 | the loop appends one code unit per byte, so the result is the binary string of the whole array |
| Bytes.StringToArray | jules-tools/obsidian-meld-encrypt/crypto-tool.ts:103-109 | the loop collects each code unit and the `Uint8Array` keeps its low byte |
| Bytes.Set | jules-tools/obsidian-meld-encrypt/crypto-tool.ts:97-99 | `set` writes the source at the offset and leaves the bytes before and after unchanged |
| Bytes.RelativeIndex | jules-tools/obsidian-meld-encrypt/crypto-tool.ts:114-115 | a `slice` bound lands inside the array and equals the bound clamped to the length when it is not negative |
| Primitives.Btoa | jules-tools/obsidian-meld-encrypt/crypto-tool.ts:9 | `btoa` emits base64 text that decodes to the low byte of each code unit of its input |
| Primitives.AtobInvertsBtoa | jules-tools/obsidian-meld-encrypt/crypto-tool.ts:9-10 | `atob` gives back every binary string that `btoa` was given |
| JsText.Substring | jules-tools/obsidian-meld-encrypt/crypto-tool.ts:259-267 | `substring` never leaves the text; in-range bounds give that slice, crossed bounds give the slice between them, and bounds both past the end give the empty string |
| Bytes.Slice | jules-tools/obsidian-meld-encrypt/crypto-tool.ts:114 | `slice(start, end)` never leaves the array; in-range bounds give that slice and crossed bounds give nothing |
| Bytes.SliceFrom | jules-tools/obsidian-meld-encrypt/crypto-tool.ts:115 | `slice(start)` gives the tail from an in-range start, nothing from a start past the end, and everything from a start at or before minus the length |
| Primitives.Atob | jules-tools/obsidian-meld-encrypt/crypto-tool.ts:10 | `atob` gives a binary string (every unit below 256) whose bytes are exactly the base64-decoded bytes |
| CryptoHelperObsolete.BuildKey | jules-tools/obsidian-meld-encrypt/crypto-tool.ts:31-35 | the key is the SHA-256 digest of the UTF-8 password (no contract; the digest is a platform service) |
| CryptoHelperObsolete.EncryptToBase64 | jules-tools/obsidian-meld-encrypt/crypto-tool.ts:37-42 | the binary string of the sealed bytes, passed through `btoa`, is exactly the base64 encoding of those bytes |
| CryptoHelperObsolete.EncryptionFrame | jules-tools/obsidian-meld-encrypt/crypto-tool.ts:37-42 | a generation-0 frame is the sealed bytes alone under the fixed IV, 16 bytes longer than the UTF-8 note |
| CryptoHelperObsolete.DecryptFromBase64 | jules-tools/obsidian-meld-encrypt/crypto-tool.ts:52-61 | decryption opens the whole decoded frame with the fixed IV and the SHA-256 digest of the password, and returns no value where AES-GCM rejects |
| CryptoHelperObsolete.DecryptionInvertsEncryption | jules-tools/obsidian-meld-encrypt/crypto-tool.ts:37-61 | generation-0 decryption of generation-0 output under the same password gives back the note, for every note that survives UTF-8 encoding and decoding |
| CryptoHelperObsolete.ShortFrameFails | jules-tools/obsidian-meld-encrypt/crypto-tool.ts:54-59 | a frame shorter than the tag decrypts to no value |
| CryptoHelperV1.DeriveKey | jules-tools/obsidian-meld-encrypt/crypto-tool.ts:72-82 | the key is PBKDF2-SHA-256 of the UTF-8 password with the fixed 16-byte salt and 1000 iterations (no contract; PBKDF2 is a platform service) |
| CryptoHelperV1.SplitFrame | jules-tools/obsidian-meld-encrypt/crypto-tool.ts:114-115 | the two slices concatenate back to the frame, and the IV part is 16 bytes or the whole frame if it is shorter |
| CryptoHelperV1.SplitFrameInvertsAssembly | jules-tools/obsidian-meld-encrypt/crypto-tool.ts:97-115 | slicing a frame assembled from a 16-byte IV and the sealed bytes gives back exactly those two parts |
| CryptoHelperV1.EncryptToBase64 | jules-tools/obsidian-meld-encrypt/crypto-tool.ts:92-101 | output is base64 of IV followed by the AES-GCM sealing of the UTF-8 note under the PBKDF2-SHA-256 key (fixed salt, 1000 iterations) |
| CryptoHelperV1.DecryptFromBase64 | jules-tools/obsidian-meld-encrypt/crypto-tool.ts:111-122 | decryption takes the first 16 bytes as IV and opens the rest, returning no value where AES-GCM rejects |
| CryptoHelperV1.DecryptionInvertsEncryption | jules-tools/obsidian-meld-encrypt/crypto-tool.ts:92-122 | generation-1 decryption of generation-1 output under the same password gives back the note, for IV and salt draws of the configured lengths and every note that survives UTF-8 encoding and decoding |
| CryptoHelperV1.EncryptionFrameLength | jules-tools/obsidian-meld-encrypt/crypto-tool.ts:96-100 | the frame is IV length plus UTF-8 length plus the 16-byte tag |
| CryptoHelperV1.ShortFrameFails | jules-tools/obsidian-meld-encrypt/crypto-tool.ts:113-120 | a frame too short to hold the IV and the tag decrypts to no value |
| CryptoHelperV2.DeriveKey | jules-tools/obsidian-meld-encrypt/crypto-tool.ts:139-149 | the key is PBKDF2-SHA-512 of the UTF-8 password with the given salt and the configured iterations (no contract; PBKDF2 is a platform service) |
| CryptoHelperV2.SplitFrame | jules-tools/obsidian-meld-encrypt/crypto-tool.ts:183-185 | the three slices concatenate back to the frame; IV and salt parts have their configured sizes, clamped to what the frame holds |
| CryptoHelperV2.SplitFrameInvertsAssembly | jules-tools/obsidian-meld-encrypt/crypto-tool.ts:165-185 | slicing a frame assembled from IV, salt and sealed bytes of the configured sizes gives back exactly those three parts |
| CryptoHelperV2.EncryptToBase64 | jules-tools/obsidian-meld-encrypt/crypto-tool.ts:159-170 | output is base64 of IV, then salt, then the AES-GCM sealing of the UTF-8 note under the PBKDF2-SHA-512 key from that salt |
| CryptoHelperV2.DecryptFromBase64 | jules-tools/obsidian-meld-encrypt/crypto-tool.ts:180-192 | decryption splits IV, salt and ciphertext at the configured sizes, derives the key from the embedded salt, and returns no value where AES-GCM rejects |
| CryptoHelperV2.DecryptionInvertsEncryption | jules-tools/obsidian-meld-encrypt/crypto-tool.ts:159-192 | generation-2 decryption of generation-2 output with the same configuration and password gives back the note, for IV and salt draws of the configured lengths and every note that survives UTF-8 encoding and decoding |
| CryptoHelperV2.EncryptionFrameLength | jules-tools/obsidian-meld-encrypt/crypto-tool.ts:164-169 | the frame is IV length plus salt length plus UTF-8 length plus the 16-byte tag |
| CryptoHelperV2.ShortFrameFails | jules-tools/obsidian-meld-encrypt/crypto-tool.ts:182-189 | a frame too short to hold IV, salt and tag decrypts to no value |
| InPlace.ParseInPlace | jules-tools/obsidian-meld-encrypt/crypto-tool.ts:247-257 | parsing succeeds exactly when the text starts with one of the six prefixes and ends with one of the two suffixes, and then reports a generation from 0 to 2 |
| InPlace.PrefixVersion | jules-tools/obsidian-meld-encrypt/crypto-tool.ts:252-255 | the generation is -1 exactly for text that is none of the six prefixes, and otherwise 0, 1 or 2 |
| InPlace.SplitHint | jules-tools/obsidian-meld-encrypt/crypto-tool.ts:259-271 | the generation is kept, the ciphertext is always a tail of the content, and a non-empty hint only comes from content that opens with 💡 |
| InPlace.FormatInPlace | jules-tools/obsidian-meld-encrypt/crypto-tool.ts:319 | the output starts with the block-style β prefix, ends with the block-style suffix, and holds exactly the frame between them |
| InPlace.AtMostOnePrefix | jules-tools/obsidian-meld-encrypt/crypto-tool.ts:201-211 | no text starts with two different prefixes |
| InPlace.AtMostOneSuffix | jules-tools/obsidian-meld-encrypt/crypto-tool.ts:208-212 | no text ends with both suffixes |
| InPlace.FindsMatchedPrefix | jules-tools/obsidian-meld-encrypt/crypto-tool.ts:248 | the prefix search returns the prefix the text starts with |
| InPlace.FindsMatchedSuffix | jules-tools/obsidian-meld-encrypt/crypto-tool.ts:249 | the suffix search returns the suffix the text ends with |
| InPlace.PrefixVersionOfEach | jules-tools/obsidian-meld-encrypt/crypto-tool.ts:252-255 | β prefixes map to 2, α prefixes to 1, obsolete prefixes to 0 |
| InPlace.ParseInPlaceMatches | jules-tools/obsidian-meld-encrypt/crypto-tool.ts:247-259 | a text with prefix i and suffix j parses to prefix i's generation and the hint split of the text between the markers, with the bounds swapped when they overlap |
| InPlace.SplitHintSpec | jules-tools/obsidian-meld-encrypt/crypto-tool.ts:259-271 | with a closed 💡 pair the content is marker, hint, marker, ciphertext and the hint holds no 💡; otherwise the hint is empty and the whole content is the ciphertext |
| InPlace.SplitHintOfClosed | jules-tools/obsidian-meld-encrypt/crypto-tool.ts:263-268 | a 💡-free hint between two 💡 is recovered exactly, with the ciphertext after it |
| InPlace.SplitHintOfUnclosed | jules-tools/obsidian-meld-encrypt/crypto-tool.ts:263-265 | a lone leading 💡 is kept in the ciphertext and the hint is empty |
| InPlace.AsciiHasNoHintMarker | jules-tools/obsidian-meld-encrypt/crypto-tool.ts:214 | ASCII text never contains 💡 |
| InPlace.Base64HasNoHintMarker | jules-tools/obsidian-meld-encrypt/crypto-tool.ts:263 | base64 text neither contains nor starts with 💡 |
| InPlace.ParseBlockBeta | jules-tools/obsidian-meld-encrypt/crypto-tool.ts:247-259 | block-style β markers around any content parse to generation 2 and the hint split of exactly that content |
| InPlace.ParseMarked | jules-tools/obsidian-meld-encrypt/crypto-tool.ts:247-259 | any prefix and suffix around any content parse to that prefix's generation and the hint split of exactly that content |
| InPlace.ParseMarkedFrame | jules-tools/obsidian-meld-encrypt/crypto-tool.ts:247-271 | markers around a frame that does not open with 💡 parse to the prefix's generation, an empty hint and the frame |
| InPlace.ParseInPlaceInvertsFormat | jules-tools/obsidian-meld-encrypt/crypto-tool.ts:319 | parsing the marker text `encrypt` prints gives back generation 2, an empty hint and the frame |
| InPlace.HintExample | jules-tools/obsidian-meld-encrypt/crypto-tool.ts:263-268 | `%%🔐β 💡note💡QUJD 🔐%%` parses to hint "note" and ciphertext "QUJD" |
| InPlace.UnterminatedHintExample | jules-tools/obsidian-meld-encrypt/crypto-tool.ts:264-265 | `%%🔐β 💡onlyone 🔐%%` parses to an empty hint and the ciphertext "💡onlyone" |
| InPlace.EmptyHintExample | jules-tools/obsidian-meld-encrypt/crypto-tool.ts:264-268 | `💡💡X` between β markers parses to an empty hint and the ciphertext "X" |
| InPlace.OverlapExample | jules-tools/obsidian-meld-encrypt/crypto-tool.ts:259 | `🔐 🔐` parses as generation 0 with the single space as ciphertext, because `substring` swaps overlapping bounds |
| CryptoFactory.Build | jules-tools/obsidian-meld-encrypt/crypto-tool.ts:233-238 | generations 0, 1 and 2 get a helper of that generation (2 the shared 16/16/210000 instance), and any other number is an unsupported-version error naming it |
| CryptoFactory.BuildForFile | jules-tools/obsidian-meld-encrypt/crypto-tool.ts:240-244 | "1.0" dispatches as generation 1 and "2.0" as generation 2, no tag reaches the obsolete helper, and any other tag is an unsupported-file-version error naming it |
| CryptoFactory.DecryptInvertsEncrypt | jules-tools/obsidian-meld-encrypt/crypto-tool.ts:16-18 | through the common helper interface, every helper decrypts what it encrypted under the same password, for IV and salt draws of the configured lengths and every note that survives UTF-8 encoding and decoding |
| CryptoFactory.Encrypt | jules-tools/obsidian-meld-encrypt/crypto-tool.ts:16-17 | through the common interface, every helper's output is base64 text |
| CryptoFactory.Decrypt | jules-tools/obsidian-meld-encrypt/crypto-tool.ts:16-18 | through the common interface, every helper rejects a frame shorter than the 16-byte tag |
| CryptoFactory.ParsedMarkerIsBuildable | jules-tools/obsidian-meld-encrypt/crypto-tool.ts:233-257 | whatever `parseInPlace` accepts, `build` accepts, with a helper of the parsed generation |
| CryptoFactory.WholeNoteRecordIsBuildable | jules-tools/obsidian-meld-encrypt/crypto-tool.ts:312-316 | the record `encrypt` writes is served by the shared generation-2 helper |
| CryptoTool.DecryptWith | jules-tools/obsidian-meld-encrypt/crypto-tool.ts:329 | calling `decryptFromBase64` on the chosen helper runs that helper's decryption |
| CryptoTool.EncryptInPlace | jules-tools/obsidian-meld-encrypt/crypto-tool.ts:308-320 | `encrypt` prints the generation-2 frame between the block-style β prefix and suffix |
| CryptoTool.EncryptWholeNote | jules-tools/obsidian-meld-encrypt/crypto-tool.ts:308-316 | `encrypt --type wholenote` writes a "2.0" record with an empty hint and the generation-2 frame |
| CryptoTool.DecryptInPlace | jules-tools/obsidian-meld-encrypt/crypto-tool.ts:331-343 | `decrypt` on marker text refuses unparsable text, then builds the helper, then refuses a failed decryption, and otherwise yields the note |
| CryptoTool.DecryptWholeNote | jules-tools/obsidian-meld-encrypt/crypto-tool.ts:326-343 | `decrypt` on a record builds the helper from its tag, refuses a failed decryption, and otherwise yields the note |
| CryptoTool.EncryptedFrameParses | jules-tools/obsidian-meld-encrypt/crypto-tool.ts:319 | any helper's output wrapped in any prefix and suffix parses back to the prefix's generation, an empty hint and the output itself |
| CryptoTool.InPlaceRoundTrip | jules-tools/obsidian-meld-encrypt/crypto-tool.ts:308-344 | `decrypt` of what `encrypt` printed in place, under the same password, yields the original note, for IV and salt draws of the configured lengths and every note that survives UTF-8 encoding and decoding |
| CryptoTool.WholeNoteRoundTrip | jules-tools/obsidian-meld-encrypt/crypto-tool.ts:308-344 | `decrypt` of the whole-note record `encrypt` wrote, under the same password, yields the original note, for IV and salt draws of the configured lengths and every note that survives UTF-8 encoding and decoding |
| CryptoTool.MarkedRoundTrip | jules-tools/obsidian-meld-encrypt/crypto-tool.ts:331-337 | a note encrypted by the generation a prefix names, wrapped in that prefix and either suffix, decrypts to the note, for IV and salt draws of the configured lengths and every note that survives UTF-8 encoding and decoding |
| CryptoTool.InPlaceNeverUnsupported | jules-tools/obsidian-meld-encrypt/crypto-tool.ts:331-336 | `decrypt` on marker text never ends in the factory's unsupported-version error |
| CryptoTool.UnknownTagRefused | jules-tools/obsidian-meld-encrypt/crypto-tool.ts:328 | a record whose tag is neither "1.0" nor "2.0" is refused with an error naming that tag |

## Left out

- `isWholeNote`, `JSON.parse` and `JSON.stringify`: JSON is not modelled. The record path starts from an already-parsed `FileData`, and the choice between the record path and the marker path is not modelled.
- `main`'s argument handling, console output, `process.exit` and the top-level `catch`: these are I/O. The commands are modelled as functions and methods returning a result or a refusal.
- `async`/`await`: the promises are modelled as their resolved values.
- UTF-8, base64, SHA-256, PBKDF2 and AES-GCM are not implemented. They are fields of `Primitives.Platform`, and only the properties in `Primitives.Sound` are assumed of them. The model does not state that the key-import details (`importKey` with the raw digest, a 256-bit AES key) produce any particular key.
- Notes that do not survive UTF-8 encoding and decoding are outside the round-trip results. `TextEncoder` replaces an unpaired UTF-16 surrogate with U+FFFD, so such a note decrypts to a different text. Every round-trip lemma requires `p.utf8Decode(p.utf8Encode(text)) == text`.
- The random IV and salt: `getRandomValues` is a parameter of each encrypt operation. The round-trip lemmas require the draws to have the helper's configured lengths (16-byte IV for generation 1; the configured IV and salt sizes for generation 2), which `getRandomValues(new Uint8Array(n))` always meets; a draw of another length is not covered (generation 1's decrypt would cut a shorter IV at 16 bytes). That the draws are fresh and unpredictable is not modelled.
- Decryption with a wrong password or of a tampered frame is not proved to fail. That depends on AES-GCM authentication, which holds only with overwhelming probability.
- `CryptoHelperObsolete.EncryptToBase64`: modelled as a function, not a method. `String.fromCharCode(...encryptedBytes)` has no loop and no buffer. The `RangeError` a very large spread argument would raise is not modelled.
- Exceptions thrown inside the `try` blocks of the decrypt methods are modelled only where `Primitives.Platform.open` rejects its input (AES-GCM failure). `TextDecoder` and base64 decoding are taken to never throw, which matches their non-fatal defaults.
- Helper objects are values, so the model cannot observe that `cryptoV2` is one shared instance rather than a fresh one. Its settings are `CryptoFactory.CryptoV2`.
- `Decryptable.version` is an unbounded integer and `FileData.version` is any text. The tool's type annotations narrow them, but at run time they are whatever was parsed, and the model keeps them unnarrowed.
