# fish CBC codec — a Dafny model

The `fish` package implements the FiSH / Mircryption encryption used on IRC.
This project models its CBC message codec (`cbc.go`). The codec turns a chat
line into ciphertext and back:

- **Encrypt.** The message is padded to whole 8-byte blocks. One block of
  random bytes goes in front of it. The whole is encrypted with Blowfish in
  CBC mode, base64-encoded, and sent as `+OK *<base64>`.
- **Decrypt.** A line is recognised by its prefix, `+OK *` or the legacy
  `mcps *`. Any other line passes through unchanged. A recognised line is
  base64-decoded into a buffer of `DecodedLen` bytes. The buffer's trailing
  zeros are trimmed and it is zero-padded back to whole blocks. It is then
  CBC-decrypted and trimmed of trailing zeros again, and the random seed block
  is dropped.
- **State.** A codec (`newCBC`) holds an all-zero 8-byte IV and two CBC
  operators, an encrypter and a decrypter. Each operator keeps its own
  chaining value, which every `CryptBlocks` call advances to the last
  ciphertext block it handled. This is cipher block chaining as in
  section 6.2 of NIST SP 800-38A.

## Layout

- `wrappers.dfy`: `Option` and `Result`.
- `bytes.dfy`: byte strings, zero buffers, and `bytes.TrimRight(s, "\x00")` as
  `TrimRightZeros`.
- `primitives.dfy`: the collaborators the file calls but does not define.
  Each is a value with a `Valid()` predicate stating what the codec assumes of
  it:
  - Blowfish is an 8-byte block permutation with its inverse.
  - base64 is an encode/decode pair. `EncodedLen` follows section 4 of
    RFC 4648, and `DecodedLen` is Go's buffer size.
  - `pad` is assumed to produce whole blocks.
- `cbc_mode.dfy`: CBC encryption and decryption as functions, and the
  inversion and chaining lemmas.
- `fish.dfy`: the codec.
  - `Trim`, and the specification functions `EncryptLine` and `DecryptLine`.
    Each returns the result together with the operator's next chaining value.
  - The class `Cbc` holds the `iv`, `encChain` and `decChain` state. Its
    methods follow the Go code step by step, filling `array` buffers block by
    block the way `CryptBlocks` does.
  - Each method is proved equal to its specification function, and each
    touches only its own chain.
- `fish_lemmas.dfy`: the re-alignment characterisation, the round trip, the
  panic at cbc.go:77, the effect of the decrypter chain, and a two-codec
  exchange.

## Model

| member | source | states |
|---|---|---|
| Fish.Trim | cbc.go:80-89 | A line is recognised exactly when it starts with "+OK *" or "mcps *". The matching prefix followed by the result is the input. An unrecognised line comes back unchanged. |
| Fish.PrefixesExclusive | cbc.go:31-34 | No line carries both prefixes, so the order of the tests in `trim` does not change its result. |
| FishProperties.TrimStripsOK | cbc.go:82-83 | `trim` of "+OK *" + payload gives the payload and `true`. |
| FishProperties.TrimStripsMCPS | cbc.go:84-85 | `trim` of "mcps *" + payload gives the payload and `true`. |
| Bytes.TrimRightZeros | cbc.go:67 | The result is a prefix of the input that does not end in a zero byte, and everything cut off is zero. |
| Bytes.TrimRightZerosUnique | cbc.go:75 | That split is unique, so the trim is fully determined by its contract. |
| Bytes.TrimRightZerosIgnoresZeroTail | cbc.go:62-67 | Zero slack appended to a buffer does not survive the trim. |
| Bytes.TrimRightZerosOfPadded | cbc.go:67-71 | Trimming `t` + zeros gives `t` back exactly when `t` does not end in a zero byte. |
| Primitives.EncodedLenBounds | cbc.go:50 | The encoded length is a multiple of 4 and lies in [4n/3, 4n/3 + 4). |
| Primitives.DecodedLenBounds | cbc.go:62 | The decode buffer length is a multiple of 3 and holds three bytes for each complete group of four characters. |
| Primitives.DecodedLenCoversEncodedLen | cbc.go:62 | A buffer sized for decoding the encoding of n bytes holds n bytes, with fewer than 3 spare. |
| Fish.DecodeBuffer | cbc.go:62-66 | Decoding fails exactly when the base64 text is malformed. Otherwise the buffer has `DecodedLen` bytes and the same zero-trimmed contents as the decoded bytes. |
| Fish.Padding | cbc.go:70 | The padding is below 8 and brings the length to a multiple of 8. |
| FishProperties.PaddingUnique | cbc.go:70 | It is the only amount with that property (both directions). |
| Fish.Realign | cbc.go:67-71 | The re-aligned buffer is 8-aligned and trims to the same bytes as the input. Its length is within one block of the trimmed length. |
| FishProperties.ZeroBlockIffLongZeroRun | cbc.go:67-71 | A buffer ends in a whole zero block exactly when its trailing zero run is at least 8 long. |
| FishProperties.RealignRestores | cbc.go:67-71 | Trim-then-repad gives back the buffer exactly when it is 8-aligned and does not end in a whole block of zeros (both directions). |
| Fish.DecryptPayload | cbc.go:67-75 | The decrypted, trimmed bytes do not end in zero, and the decrypter's next chaining value is one block. |
| Fish.DecryptLine | cbc.go:56-78 | An unrecognised line returns unchanged and leaves the chain alone. The result is an error exactly when the line is recognised and its base64 is malformed; that error is `DecodeError`, and the chain is left alone. A returned plaintext does not end in a zero byte. When fewer than 8 bytes are left after the trim, the empty message is returned where the code as written panics. |
| Fish.DecryptLineAsWritten | cbc.go:73-77 | The code as written: a panic can only come from a recognised, decodable line. An unrecognised line passes through. |
| FishProperties.DecryptLineAgreesWithAsWritten | cbc.go:56-78 | The as-written code panics exactly on a recognised, decodable line whose trimmed plaintext is shorter than 8 bytes, and there `DecryptLine` returns the empty message. Everywhere else both return the same result, and the chain moves the same way in both. |
| FishProperties.BarePrefixPanics | cbc.go:57-77 | A line holding only "+OK *" or "mcps *" makes the as-written code panic. `DecryptLine` returns the empty message for it. |
| FishProperties.ZeroSeedTrimsShort | cbc.go:37-45 | Under zero padding, an empty message behind a seed block that ends in zero trims to fewer than 8 bytes. |
| FishProperties.EmptyMessageZeroSeedPanics | cbc.go:36-77 | Under zero padding, a line that `encrypt` itself produces (the empty message, with a seed ending in zero) makes the as-written `decrypt` panic. |
| CbcMode.CbcEncrypt | cbc.go:48 | CBC encryption keeps the length. |
| CbcMode.CbcDecrypt | cbc.go:74 | CBC decryption keeps the length. |
| CbcMode.LastBlock | cbc.go:48 | The chaining value left after a call is one block long. |
| CbcMode.LastBlockOfAppend | cbc.go:48 | After one more block is processed, that block is the chaining value. |
| CbcMode.CbcDecryptInvertsEncrypt | cbc.go:25-26 | Decrypting from the same chaining value undoes encryption, for every input. |
| CbcMode.CbcEncryptInvertsDecrypt | cbc.go:25-26 | Encrypting undoes decryption, so CBC is a bijection for each chaining value. |
| CbcMode.CbcDecryptChainOnlyFirstBlock | cbc.go:74 | The starting chaining value affects only the first decrypted block. That block differs exactly when the chaining values differ. |
| Fish.EncryptedPayload | cbc.go:47-53 | For a block-aligned buffer: the line carries "+OK *", its payload decodes to the ciphertext, and the ciphertext decrypts back to the buffer. The next chaining value is the ciphertext's last block. |
| Fish.EncryptLine | cbc.go:36-54 | A failed random source gives an error and leaves the encrypter's chain unchanged. Otherwise the line starts with "+OK *", and the next chain is one block. |
| Fish.EncryptLinePayload | cbc.go:36-54 | The payload decodes to a ciphertext of 8 + len(padded) bytes. That ciphertext decrypts, from the encrypter's chaining value, to the random block followed by the padded message. The encrypter's next chain is its last block. |
| Fish.EncryptLineLength | cbc.go:50-53 | The line is the 5 prefix bytes plus `EncodedLen(8 + len(padded))` characters. |
| Fish.Cbc.constructor | cbc.go:19-28 | `iv` is 8 zero bytes, and both operators start with it as their chaining value. |
| Fish.Cbc.EncrypterCryptBlocks | cbc.go:47-48 | The destination holds the CBC encryption of the source from the old chaining value. The encrypter's chain becomes the last ciphertext block. The decrypter's chain is untouched. |
| Fish.Cbc.DecrypterCryptBlocks | cbc.go:73-74 | The destination holds the CBC decryption of the source from the old chaining value. The decrypter's chain becomes the last ciphertext block. The encrypter's chain is untouched. |
| Fish.Cbc.Encrypt | cbc.go:36-54 | Result and new encrypter chain equal `EncryptLine`. The decrypter's chain is untouched. |
| Fish.Cbc.Decrypt | cbc.go:56-78 | Result and new decrypter chain equal `DecryptLine` (with the short-plaintext guard). The encrypter's chain is untouched. |
| FishProperties.SeededPaddingTrims | cbc.go:37-45 | Under zero padding, trimming the seed block plus the padded message gives the seed block plus the message, when the message (or else the seed) does not end in zero. |
| FishProperties.EncryptedLineDecrypts | cbc.go:36-78 | Decrypting a line `encrypt` produced, from the same chaining value, gives the trimmed seed-plus-padded message minus its first block, or the empty message when the trim left less than a block. The as-written code panics in that case. Either way the decrypter lands on the encrypter's new chain. This holds unless the ciphertext ends in a whole zero block. |
| FishProperties.SeedBlockDropRestores | cbc.go:75-77 | Under zero padding, dropping the seed block from the trimmed seed-plus-padded message (nothing when less than a block is left) gives back the empty message and every message not ending in a zero byte. |
| FishProperties.EmptyMessageTrimsToSeed | cbc.go:37-45 | Under zero padding, the empty message behind a seed block trims to at most that block. |
| FishProperties.LineRoundTrip | cbc.go:36-78 | Under zero padding, decrypt(encrypt(m)) == m and both chains agree. This holds for the empty message with any random block, and for every message not ending in a zero byte, whenever the ciphertext does not end in a whole zero block. |
| FishProperties.TrimmedDecryptChainFree | cbc.go:74-77 | Past its first block, a trimmed CBC decryption that is longer than one block does not depend on the starting chaining value. |
| FishProperties.PayloadChainFree | cbc.go:67-77 | The same holds for the decrypt steps after decoding: same length, same text past the seed block, same next chain. |
| FishProperties.DecryptIgnoresChainForNonEmptyText | cbc.go:56-78 | A line that decrypts to a non-empty message decrypts to the same message, with the same new chain, from any starting chaining value. |
| FishProperties.Exchange | cbc.go:36-78 | When a sender's encrypter and a receiver's decrypter are in step, the receiver reads the message back and the two stay in step. This holds under LineRoundTrip's conditions: zero padding, the message empty or not ending in a zero byte, and the ciphertext not ending in a whole zero block. |
| FishProperties.ExchangeFirstLine | cbc.go:19-78 | Two fresh codecs over the same cipher: one decrypts what the other encrypts. This holds under zero padding, for the empty message or one not ending in a zero byte, when the ciphertext does not end in a whole zero block. |

## Left out

- Blowfish (`golang.org/x/crypto/blowfish`): its key schedule and rounds are not modelled. The cipher is an 8-byte block permutation with an inverse, passed in as a value.
- `base64.StdEncoding`: its alphabet and algorithm are not modelled. It is an encode/decode pair with three assumptions: decode inverts encode, encoded lengths follow `EncodedLen`, and decoded lengths fit `DecodedLen`. The function does not say which strings are malformed.
- `pad` is not part of this model. It is assumed to return whole 8-byte blocks. The round-trip lemmas additionally assume that it appends zero bytes (`Padder.AppendsZeros`), and that assumption is not checked against its source.
- `crypto/rand.Read` is nondeterministic I/O. Its outcome is a parameter: `Some(8 bytes)` or `None` for a failure.
- Concurrency: the block-mode operators are shared without locking, and the model is sequential.
- `CryptBlocks` panics on input that is not a whole number of blocks. The methods require aligned input, which the codec always provides. `CbcEncrypt`/`CbcDecrypt` leave a trailing partial block unchanged only so that they are total.
- Go's `string`/`[]byte` conversions are identities on the bytes. Strings are byte sequences, and error values are the `Error` datatype.
- Fish.EncryptLine: the contract states the prefix and the chain but not the line's length or payload. Those are stated by `Fish.EncryptLineLength` and `Fish.EncryptLinePayload`.
- FishProperties.LineRoundTrip: the round trip is proved only under zero padding, and only when the ciphertext does not end in a whole zero block. Otherwise the trim at cbc.go:67 eats ciphertext bytes, which is a 2^-64 event for a random seed. A non-empty message that ends in a zero byte loses it to the trim at cbc.go:75, so it is excluded. The empty message is covered for every random block only because the guarded `DecryptLine` returns the empty message where the code as written panics (see Findings).
- Decrypter chaining: a wrong or unsynchronised decrypter chain garbles only the first decrypted block, which is the discarded random seed block. So the code does not detect a decrypter out of step with the sender for any non-empty message (`FishProperties.DecryptIgnoresChainForNonEmptyText`).

## Findings

| source | as written | input that shows it | evidently intended | confidence | as-written member | corrected member |
|---|---|---|---|---|---|---|
| cbc.go:77 | `decrypted[blowfish.BlockSize:]` is sliced with no length check after the zeros are trimmed | the line "+OK *" (or "mcps *"); also, under zero padding, what `encrypt("")` sends when the random block's last byte is 0 | when fewer than 8 bytes remain, no message byte follows the seed block: return the empty message instead of panicking, so `encrypt("")` round-trips for every random block | high, not executed | FishProperties.BarePrefixPanics | Fish.DecryptLine |
