/** The Mircryption CBC message codec of the fish package (cbc.go): chat lines
    are turned into `"+OK *" + base64(CBC(random block + pad(message)))` and back. */
module Fish {
  import opened Wrappers
  import opened Bytes
  import opened Primitives
  import opened CbcMode

  /** `CBCPrefixOK`, the bytes of "+OK *". */
  const CbcPrefixOK: seq<byte> := [0x2B, 0x4F, 0x4B, 0x20, 0x2A]

  /** `CBCPrefixMCPS`, the bytes of "mcps *". */
  const CbcPrefixMCPS: seq<byte> := [0x6D, 0x63, 0x70, 0x73, 0x20, 0x2A]

  datatype Error =
    | RandomSourceError  // `rand.Read` failed while encrypting
    | DecodeError        // the base64 payload is malformed

  /** `strings.HasPrefix(s, p)`. */
  predicate HasPrefix(s: seq<byte>, p: seq<byte>)
  {
    |p| <= |s| && s[..|p|] == p
  }

  /** The two prefixes differ in their first byte, so no line carries both. */
  lemma PrefixesExclusive(s: seq<byte>)
    ensures !(HasPrefix(s, CbcPrefixOK) && HasPrefix(s, CbcPrefixMCPS))
  {
    if HasPrefix(s, CbcPrefixOK) {
      assert s[0] == CbcPrefixOK[0] != CbcPrefixMCPS[0];
    }
  }

  /** `trim`: recognises a ciphertext line by its prefix ("+OK *" tested first,
      then "mcps *") and strips the prefix; any other line comes back unchanged. */
  function Trim(src: seq<byte>): (r: (seq<byte>, bool))
    ensures r.1 <==> HasPrefix(src, CbcPrefixOK) || HasPrefix(src, CbcPrefixMCPS)
    ensures HasPrefix(src, CbcPrefixOK) ==> CbcPrefixOK + r.0 == src
    ensures HasPrefix(src, CbcPrefixMCPS) ==> CbcPrefixMCPS + r.0 == src
    ensures !r.1 ==> r.0 == src
  {
    PrefixesExclusive(src);
    if HasPrefix(src, CbcPrefixOK) then (src[|CbcPrefixOK|..], true)
    else if HasPrefix(src, CbcPrefixMCPS) then (src[|CbcPrefixMCPS|..], true)
    else (src, false)
  }

  /** The `padding` computed in `decrypt`: how many zero bytes bring `n` up to a
      whole number of blocks. */
  function Padding(n: nat): (p: nat)
    ensures p < 8
    ensures (n + p) % 8 == 0
  {
    (8 - n % 8) % 8
  }

  /** The last 8 bytes of `b` exist and are all zero. */
  predicate EndsInZeroBlock(b: seq<byte>)
  {
    |b| >= 8 && AllZero(b[|b| - 8..])
  }

  /** The buffer Go's `Decode` fills: a zeroed buffer of `DecodedLen` bytes whose
      prefix holds the decoded bytes. The count `Decode` returns is ignored, so
      the zero slack stays in the buffer. */
  function DecodeBuffer(b64: Base64, s: seq<byte>): (r: Option<seq<byte>>)
    requires b64.Valid()
    ensures r.None? <==> b64.decode(s).None?
    ensures r.Some? ==> |r.value| == DecodedLen(|s|)
    ensures r.Some? ==> TrimRightZeros(r.value) == TrimRightZeros(b64.decode(s).value)
  {
    match b64.decode(s)
    case None => None
    case Some(d) =>
      TrimRightZerosIgnoresZeroTail(d, DecodedLen(|s|) - |d|);
      Some(d + Zeros(DecodedLen(|s|) - |d|))
  }

  /** The re-alignment in `decrypt`: trailing zeros are trimmed and the result
      is zero-padded to a whole number of blocks. */
  function Realign(decoded: seq<byte>): (r: seq<byte>)
    ensures |r| % 8 == 0
    ensures TrimRightZeros(r) == TrimRightZeros(decoded)
    ensures |TrimRightZeros(decoded)| <= |r| < |TrimRightZeros(decoded)| + 8
  {
    var t := TrimRightZeros(decoded);
    TrimRightZerosOfPadded(t, Padding(|t|));
    t + Zeros(Padding(|t|))
  }

  /** The block steps of `decrypt` after decoding: re-align, CBC-decrypt from
      `chain`, trim the trailing zeros. Yields the trimmed plaintext (seed
      block included) and the decrypter's next chaining value. */
  function DecryptPayload(c: BlockCipher, chain: seq<byte>, decoded: seq<byte>): (r: (seq<byte>, seq<byte>))
    requires c.Valid() && |chain| == 8
    ensures |r.1| == 8
    ensures r.0 == [] || r.0[|r.0| - 1] != 0
  {
    var ciphertext := Realign(decoded);
    (TrimRightZeros(CbcDecrypt(c, chain, ciphertext)), LastBlock(chain, ciphertext))
  }

  /** `decrypt` with the seed-block slice guarded: the pair of the result and
      the decrypter's next chaining value. A line without a recognised prefix
      passes through; malformed base64 is an error that leaves the chain alone;
      otherwise the plaintext after the random seed block is returned. When
      the trim has eaten into the seed block itself, which is what happens to
      an empty message whose seed ends in zero, no message byte is left and
      the empty message is returned. */
  function DecryptLine(c: BlockCipher, b64: Base64, chain: seq<byte>, msg: seq<byte>): (r: (Result<seq<byte>, Error>, seq<byte>))
    requires c.Valid() && b64.Valid() && |chain| == 8
    ensures |r.1| == 8
    ensures !Trim(msg).1 ==> r == (Ok(msg), chain)
    ensures Trim(msg).1 && b64.decode(Trim(msg).0).None? ==> r == (Err(DecodeError), chain)
    ensures Trim(msg).1 && r.0.Ok? ==> r.0.value == [] || r.0.value[|r.0.value| - 1] != 0
    ensures r.0.Err? <==> Trim(msg).1 && b64.decode(Trim(msg).0).None?
    ensures r.0.Err? ==> r.0.error == DecodeError
  {
    var (trimmed, ok) := Trim(msg);
    if !ok then (Ok(msg), chain)
    else
      match DecodeBuffer(b64, trimmed)
      case None => (Err(DecodeError), chain)
      case Some(decoded) =>
        var (plain, next) := DecryptPayload(c, chain, decoded);
        (if |plain| < 8 then Ok([]) else Ok(plain[8..]), next)
  }

  /** What a Go call can end in: a returned `(string, error)` pair, or a runtime panic. */
  datatype GoOutcome<T> = Returned(value: T) | Panicked

  /** `decrypt` exactly as written: `decrypted[blowfish.BlockSize:]` is taken
      without a length check, so a trimmed plaintext shorter than one block
      makes the slice expression panic. */
  function DecryptLineAsWritten(c: BlockCipher, b64: Base64, chain: seq<byte>, msg: seq<byte>): (r: (GoOutcome<Result<seq<byte>, Error>>, seq<byte>))
    requires c.Valid() && b64.Valid() && |chain| == 8
    ensures |r.1| == 8
    ensures !Trim(msg).1 ==> r == (Returned(Ok(msg)), chain)
    ensures r.0.Panicked? ==> Trim(msg).1 && b64.decode(Trim(msg).0).Some?
  {
    var (trimmed, ok) := Trim(msg);
    if !ok then (Returned(Ok(msg)), chain)
    else
      match DecodeBuffer(b64, trimmed)
      case None => (Returned(Err(DecodeError)), chain)
      case Some(decoded) =>
        var (decrypted, next) := DecryptPayload(c, chain, decoded);
        (if |decrypted| < 8 then Panicked else Returned(Ok(decrypted[8..])), next)
  }

  /** The wire line `encrypt` builds from a block-aligned `padded` buffer: the
      "+OK *" prefix followed by base64 text that decodes to a ciphertext which
      CBC-decrypts back to `padded`. */
  lemma EncryptedPayload(c: BlockCipher, b64: Base64, chain: seq<byte>, padded: seq<byte>)
    requires c.Valid() && b64.Valid() && |chain| == 8 && |padded| % 8 == 0 && |padded| >= 8
    ensures
      var encrypted := CbcEncrypt(c, chain, padded);
      var line := CbcPrefixOK + b64.encode(encrypted);
      && HasPrefix(line, CbcPrefixOK)
      && b64.decode(line[|CbcPrefixOK|..]) == Some(encrypted)
      && |encrypted| == |padded|
      && CbcDecrypt(c, chain, encrypted) == padded
      && LastBlock(chain, encrypted) == encrypted[|encrypted| - 8..]
  {
    var encrypted := CbcEncrypt(c, chain, padded);
    CbcDecryptInvertsEncrypt(c, chain, padded);
    var line := CbcPrefixOK + b64.encode(encrypted);
    assert line[..|CbcPrefixOK|] == CbcPrefixOK;
    assert line[|CbcPrefixOK|..] == b64.encode(encrypted);
  }

  /** `encrypt`: the pair of the wire line and the encrypter's next chaining
      value. `random` is what `rand.Read` produced, `None` when it failed. */
  function EncryptLine(c: BlockCipher, b64: Base64, pad: Padder, chain: seq<byte>, msg: seq<byte>, random: Option<seq<byte>>): (r: (Result<seq<byte>, Error>, seq<byte>))
    requires c.Valid() && b64.Valid() && pad.Valid() && |chain| == 8
    requires random.Some? ==> |random.value| == 8
    ensures |r.1| == 8
    ensures random.None? ==> r == (Err(RandomSourceError), chain)
    ensures random.Some? ==>
      && r.0.Ok?
      && HasPrefix(r.0.value, CbcPrefixOK)
  {
    if random.None? then (Err(RandomSourceError), chain)
    else
      var padded := random.value + pad.apply(msg, 8);
      EncryptedPayload(c, b64, chain, padded);
      var encrypted := CbcEncrypt(c, chain, padded);
      (Ok(CbcPrefixOK + b64.encode(encrypted)), LastBlock(chain, encrypted))
  }

  /** The payload of the line `encrypt` sends is the base64 text of a ciphertext
      that CBC-decrypts, from the encrypter's chaining value, to the random seed
      block followed by the padded message; the encrypter's next chaining value
      is that ciphertext's last block. */
  lemma EncryptLinePayload(c: BlockCipher, b64: Base64, pad: Padder, chain: seq<byte>, msg: seq<byte>, random: seq<byte>)
    requires c.Valid() && b64.Valid() && pad.Valid() && |chain| == 8 && |random| == 8
    ensures
      var (line, next) := EncryptLine(c, b64, pad, chain, msg, Some(random));
      var ciphertext := b64.decode(line.value[|CbcPrefixOK|..]);
      && ciphertext.Some?
      && |ciphertext.value| == 8 + |pad.apply(msg, 8)|
      && CbcDecrypt(c, chain, ciphertext.value) == random + pad.apply(msg, 8)
      && next == ciphertext.value[|ciphertext.value| - 8..]
  {
    EncryptedPayload(c, b64, chain, random + pad.apply(msg, 8));
  }

  /** The line `encrypt` sends is the five prefix bytes followed by the base64
      text of a ciphertext one block longer than the padded message. */
  lemma EncryptLineLength(c: BlockCipher, b64: Base64, pad: Padder, chain: seq<byte>, msg: seq<byte>, random: seq<byte>)
    requires c.Valid() && b64.Valid() && pad.Valid() && |chain| == 8 && |random| == 8
    ensures
      var line := EncryptLine(c, b64, pad, chain, msg, Some(random)).0.value;
      |line| == |CbcPrefixOK| + EncodedLen(8 + |pad.apply(msg, 8)|)
  {
    var encrypted := CbcEncrypt(c, chain, random + pad.apply(msg, 8));
    assert |encrypted| == 8 + |pad.apply(msg, 8)|;
    assert |b64.encode(encrypted)| == EncodedLen(|encrypted|);
  }

  /** Writes `block` into `dst` at offset `at`, as CryptBlocks fills its
      destination block by block. */
  method WriteBlock(dst: array<byte>, at: nat, block: seq<byte>)
    requires at + |block| <= dst.Length
    modifies dst
    ensures dst[..at + |block|] == old(dst[..at]) + block
  {
    forall k | 0 <= k < |block| {
      dst[at + k] := block[k];
    }
  }

  /** A codec instance (`cbc`): the block cipher, the fixed IV, and the
      chaining values of its two block-mode operators. */
  class Cbc {
    const blow: BlockCipher
    const iv: seq<byte>
    /** The chaining value of the CBC encrypter. */
    var encChain: seq<byte>
    /** The chaining value of the CBC decrypter. */
    var decChain: seq<byte>

    ghost predicate Valid()
      reads this
    {
      blow.Valid() && iv == Zeros(8) && |encChain| == 8 && |decChain| == 8
    }

    /** `newCBC`: a zero IV, and both operators seeded with it. */
    constructor (blow: BlockCipher)
      requires blow.Valid()
      ensures Valid() && this.blow == blow
      ensures iv == Zeros(8) && encChain == iv && decChain == iv
    {
      this.blow := blow;
      iv := Zeros(8);
      encChain := Zeros(8);
      decChain := Zeros(8);
    }

    /** `encrypter.CryptBlocks(dst, src)`: CBC-encrypts `src` into `dst`, block by
        block, and leaves the last ciphertext block as the encrypter's chaining
        value. The decrypter is not touched. */
    method EncrypterCryptBlocks(dst: array<byte>, src: seq<byte>)
      requires Valid() && dst.Length == |src| && |src| % 8 == 0
      modifies this`encChain, dst
      ensures Valid() && decChain == old(decChain)
      ensures dst[..] == CbcEncrypt(blow, old(encChain), src)
      ensures encChain == LastBlock(old(encChain), dst[..])
    {
      var i := 0;
      while i < |src|
        invariant 0 <= i <= |src| && i % 8 == 0
        invariant Valid()
        invariant dst[..i] + CbcEncrypt(blow, encChain, src[i..]) == CbcEncrypt(blow, old(encChain), src)
        invariant encChain == LastBlock(old(encChain), dst[..i])
        decreases |src| - i
      {
        CbcEncryptLoopStep(blow, old(encChain), src, i, dst[..i], encChain);
        var block := blow.encrypt(Xor(src[i..i + 8], encChain));
        WriteBlock(dst, i, block);
        encChain := block;
        i := i + 8;
      }
      assert dst[..] == dst[..i];
    }

    /** `decrypter.CryptBlocks(dst, src)`: CBC-decrypts `src` into `dst`, block by
        block, and leaves the last ciphertext block as the decrypter's chaining
        value. The encrypter is not touched. */
    method DecrypterCryptBlocks(dst: array<byte>, src: seq<byte>)
      requires Valid() && dst.Length == |src| && |src| % 8 == 0
      modifies this`decChain, dst
      ensures Valid() && encChain == old(encChain)
      ensures dst[..] == CbcDecrypt(blow, old(decChain), src)
      ensures decChain == LastBlock(old(decChain), src)
    {
      var i := 0;
      while i < |src|
        invariant 0 <= i <= |src| && i % 8 == 0
        invariant Valid()
        invariant dst[..i] + CbcDecrypt(blow, decChain, src[i..]) == CbcDecrypt(blow, old(decChain), src)
        invariant decChain == if i == 0 then old(decChain) else src[i - 8..i]
        decreases |src| - i
      {
        CbcDecryptLoopStep(blow, src, i, dst[..i], decChain);
        var block := Xor(blow.decrypt(src[i..i + 8]), decChain);
        WriteBlock(dst, i, block);
        decChain := src[i..i + 8];
        i := i + 8;
      }
      assert dst[..] == dst[..i];
    }

    /** `encrypt`: pads the message, prepends the random block, CBC-encrypts with
        the encrypter, base64-encodes and adds the "+OK *" prefix. When the
        random source fails nothing is encrypted and the chain is unchanged. */
    method Encrypt(b64: Base64, pad: Padder, msg: seq<byte>, random: Option<seq<byte>>) returns (r: Result<seq<byte>, Error>)
      requires Valid() && b64.Valid() && pad.Valid()
      requires random.Some? ==> |random.value| == 8
      modifies this`encChain
      ensures Valid() && decChain == old(decChain)
      ensures (r, encChain) == EncryptLine(blow, b64, pad, old(encChain), msg, random)
    {
      var padded := pad.apply(msg, 8);
      if random.None? {
        return Err(RandomSourceError);
      }
      padded := random.value + padded;
      var encrypted := new byte[|padded|];
      EncrypterCryptBlocks(encrypted, padded);
      var encoded := b64.encode(encrypted[..]);
      r := Ok(CbcPrefixOK + encoded);
    }

    /** `decrypt`: passes plain lines through; otherwise decodes the base64
        payload into a `DecodedLen` buffer, trims and re-pads it, CBC-decrypts
        it with the decrypter, trims the zeros and drops the random seed block. */
    method Decrypt(b64: Base64, msg: seq<byte>) returns (r: Result<seq<byte>, Error>)
      requires Valid() && b64.Valid()
      modifies this`decChain
      ensures Valid() && encChain == old(encChain)
      ensures (r, decChain) == DecryptLine(blow, b64, old(decChain), msg)
    {
      var (trimmed, ok) := Trim(msg);
      if !ok {
        return Ok(msg);
      }
      var written := b64.decode(trimmed);
      if written.None? {
        return Err(DecodeError);
      }
      var decoded := written.value + Zeros(DecodedLen(|trimmed|) - |written.value|);
      ghost var buffer := decoded;
      assert DecodeBuffer(b64, trimmed) == Some(buffer);
      decoded := TrimRightZeros(decoded);
      var padding := (8 - |decoded| % 8) % 8;
      decoded := decoded + Zeros(padding);
      assert decoded == Realign(buffer);
      var decrypted := new byte[|decoded|];
      DecrypterCryptBlocks(decrypted, decoded);
      var plain := TrimRightZeros(decrypted[..]);
      assert (plain, decChain) == DecryptPayload(blow, old(decChain), buffer);
      if |plain| < 8 {
        return Ok([]);
      }
      r := Ok(plain[8..]);
    }
  }
}
