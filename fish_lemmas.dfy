/** Properties of the fish CBC codec: prefix recognition, re-alignment, the
    encrypt/decrypt round trip, the seed-block slice, and chaining. */
module FishProperties {
  import opened Wrappers
  import opened Bytes
  import opened Primitives
  import opened CbcMode
  import opened Fish

  /** A line built by `encrypt` is recognised, and `trim` gives back its payload. */
  lemma TrimStripsOK(payload: seq<byte>)
    ensures Trim(CbcPrefixOK + payload) == (payload, true)
  {
    assert (CbcPrefixOK + payload)[..|CbcPrefixOK|] == CbcPrefixOK;
  }

  /** The legacy "mcps *" prefix is recognised and stripped too. */
  lemma TrimStripsMCPS(payload: seq<byte>)
    ensures Trim(CbcPrefixMCPS + payload) == (payload, true)
  {
    assert (CbcPrefixMCPS + payload)[..|CbcPrefixMCPS|] == CbcPrefixMCPS;
  }

  /** `Padding(n)` is the only amount below one block that aligns `n`. */
  lemma PaddingUnique(n: nat, z: nat)
    ensures Padding(n) == z <==> z < 8 && (n + z) % 8 == 0
  {
  }

  /** A buffer ends in a whole zero block exactly when its trailing zero run
      is at least one block long. */
  lemma ZeroBlockIffLongZeroRun(b: seq<byte>)
    ensures EndsInZeroBlock(b) <==> |b| - |TrimRightZeros(b)| >= 8
  {
    var t := TrimRightZeros(b);
    if |b| - |t| >= 8 {
      var last := b[|b| - 8..];
      forall i | 0 <= i < |last|
        ensures last[i] == 0
      {
        assert last[i] == b[|b| - 8 + i];
      }
    }
    if t != [] && |b| - |t| < 8 && |b| >= 8 {
      assert b[|b| - 8..][|t| - 1 - (|b| - 8)] == t[|t| - 1];
    }
  }

  /** Trim-then-repad restores a buffer exactly when it is block-aligned and
      does not end in a whole block of zero bytes. */
  lemma RealignRestores(b: seq<byte>)
    ensures Realign(b) == b <==> |b| % 8 == 0 && !EndsInZeroBlock(b)
  {
    var t := TrimRightZeros(b);
    var z := |b| - |t|;
    assert b == t + Zeros(z);
    assert Realign(b) == b <==> Padding(|t|) == z by {
      if Realign(b) == b {
        assert |Realign(b)| == |b|;
      }
    }
    PaddingUnique(|t|, z);
    ZeroBlockIffLongZeroRun(b);
  }

  /** Decrypting a line that `encrypt` produced, from the same chaining value,
      gives the trimmed seed-plus-padded-message without its seed block and
      leaves the decrypter on the same chaining value as the encrypter, unless
      the ciphertext happens to end in a whole zero block. The as-written
      `decrypt` panics instead when the trimmed text is shorter than a block. */
  lemma EncryptedLineDecrypts(c: BlockCipher, b64: Base64, pad: Padder, chain: seq<byte>, msg: seq<byte>, random: seq<byte>)
    requires c.Valid() && b64.Valid() && pad.Valid() && |chain| == 8 && |random| == 8
    requires !EndsInZeroBlock(CbcEncrypt(c, chain, random + pad.apply(msg, 8)))
    ensures EncryptLine(c, b64, pad, chain, msg, Some(random)).0.Ok?
    ensures
      var (line, next) := EncryptLine(c, b64, pad, chain, msg, Some(random));
      var plain := TrimRightZeros(random + pad.apply(msg, 8));
      && DecryptLine(c, b64, chain, line.value) == (Ok(if |plain| < 8 then [] else plain[8..]), next)
      && DecryptLineAsWritten(c, b64, chain, line.value) == (if |plain| < 8 then Panicked else Returned(Ok(plain[8..])), next)
  {
    var padded := random + pad.apply(msg, 8);
    assert |padded| % 8 == 0;
    var ciphertext := CbcEncrypt(c, chain, padded);
    assert |ciphertext| % 8 == 0;
    var payload := b64.encode(ciphertext);
    TrimStripsOK(payload);
    var decoded := DecodeBuffer(b64, payload).value;
    assert TrimRightZeros(decoded) == TrimRightZeros(ciphertext);
    assert Realign(decoded) == Realign(ciphertext);
    RealignRestores(ciphertext);
    assert Realign(decoded) == ciphertext;
    CbcDecryptInvertsEncrypt(c, chain, padded);
    assert CbcDecrypt(c, chain, ciphertext) == padded;
    assert DecryptPayload(c, chain, decoded) == (TrimRightZeros(padded), LastBlock(chain, ciphertext));
  }

  /** The round trip: under zero padding, the empty message and every message
      that does not end in a zero byte come back unchanged, and both operators
      end on the same chaining value. */
  lemma LineRoundTrip(c: BlockCipher, b64: Base64, pad: Padder, chain: seq<byte>, msg: seq<byte>, random: seq<byte>)
    requires c.Valid() && b64.Valid() && pad.Valid() && pad.AppendsZeros()
    requires |chain| == 8 && |random| == 8
    requires msg != [] ==> msg[|msg| - 1] != 0
    requires !EndsInZeroBlock(CbcEncrypt(c, chain, random + pad.apply(msg, 8)))
    ensures EncryptLine(c, b64, pad, chain, msg, Some(random)).0.Ok?
    ensures
      var (line, next) := EncryptLine(c, b64, pad, chain, msg, Some(random));
      DecryptLine(c, b64, chain, line.value) == (Ok(msg), next)
  {
    EncryptedLineDecrypts(c, b64, pad, chain, msg, random);
    SeedBlockDropRestores(pad, msg, random);
  }

  /** Under zero padding, dropping the seed block from the trimmed seed block
      and padded message, as the guarded `decrypt` does, gives back the empty
      message and every message that does not end in a zero byte. */
  lemma SeedBlockDropRestores(pad: Padder, msg: seq<byte>, random: seq<byte>)
    requires pad.AppendsZeros() && |random| == 8
    requires msg != [] ==> msg[|msg| - 1] != 0
    ensures
      var plain := TrimRightZeros(random + pad.apply(msg, 8));
      (if |plain| < 8 then [] else plain[8..]) == msg
  {
    var plain := TrimRightZeros(random + pad.apply(msg, 8));
    if msg == [] {
      EmptyMessageTrimsToSeed(pad, random);
    } else {
      SeededPaddingTrims(pad, msg, random);
      assert plain[8..] == (random + msg)[8..];
    }
  }

  /** Under zero padding, the empty message behind a seed block trims to at
      most the seed block, so nothing is left after it. */
  lemma EmptyMessageTrimsToSeed(pad: Padder, random: seq<byte>)
    requires pad.AppendsZeros() && |random| == 8
    ensures |TrimRightZeros(random + pad.apply([], 8))| <= 8
  {
    var padded := pad.apply([], 8);
    assert padded == Zeros(|padded|);
    TrimRightZerosIgnoresZeroTail(random, |padded|);
  }

  /** Under zero padding, trimming the zeros off the seed block followed by the
      padded message leaves the seed block and the message, provided the
      message (or, when it is empty, the seed block) does not end in zero. */
  lemma SeededPaddingTrims(pad: Padder, msg: seq<byte>, random: seq<byte>)
    requires pad.AppendsZeros() && |random| == 8
    requires msg != [] ==> msg[|msg| - 1] != 0
    requires msg == [] ==> random[8 - 1] != 0
    ensures TrimRightZeros(random + pad.apply(msg, 8)) == random + msg
  {
    var padded := pad.apply(msg, 8);
    var k := |padded| - |msg|;
    var seeded := random + msg;
    assert padded == msg + Zeros(k);
    assert random + padded == seeded + Zeros(k);
    assert seeded[|seeded| - 1] != 0;
    TrimRightZerosOfPadded(seeded, k);
  }

  /** Wherever the as-written `decrypt` returns, it returns what the guarded
      one does; it panics exactly on a recognised, decodable line whose trimmed
      plaintext is shorter than one block, where the guarded one returns the
      empty message; and the decrypter's chain moves the same way in both. */
  lemma DecryptLineAgreesWithAsWritten(c: BlockCipher, b64: Base64, chain: seq<byte>, msg: seq<byte>)
    requires c.Valid() && b64.Valid() && |chain| == 8
    ensures DecryptLineAsWritten(c, b64, chain, msg).1 == DecryptLine(c, b64, chain, msg).1
    ensures DecryptLineAsWritten(c, b64, chain, msg).0.Panicked? <==>
      && Trim(msg).1
      && DecodeBuffer(b64, Trim(msg).0).Some?
      && |DecryptPayload(c, chain, DecodeBuffer(b64, Trim(msg).0).value).0| < 8
    ensures DecryptLineAsWritten(c, b64, chain, msg).0.Panicked? ==> DecryptLine(c, b64, chain, msg).0 == Ok([])
    ensures DecryptLineAsWritten(c, b64, chain, msg).0.Returned? ==>
      DecryptLineAsWritten(c, b64, chain, msg).0.value == DecryptLine(c, b64, chain, msg).0
  {
  }

  /** A line holding nothing but a prefix ("+OK *" or "mcps *") makes the
      as-written `decrypt` panic on its `decrypted[8:]` slice; the guarded one
      returns the empty message. */
  lemma BarePrefixPanics(c: BlockCipher, b64: Base64, chain: seq<byte>)
    requires c.Valid() && b64.Valid() && |chain| == 8
    ensures DecryptLineAsWritten(c, b64, chain, CbcPrefixOK).0 == Panicked
    ensures DecryptLineAsWritten(c, b64, chain, CbcPrefixMCPS).0 == Panicked
    ensures DecryptLine(c, b64, chain, CbcPrefixOK).0 == Ok([])
    ensures DecryptLine(c, b64, chain, CbcPrefixMCPS).0 == Ok([])
  {
    assert |b64.encode([])| == 0;
    assert b64.decode([]) == Some([]);
    TrimStripsOK([]);
    TrimStripsMCPS([]);
    assert CbcPrefixOK + [] == CbcPrefixOK && CbcPrefixMCPS + [] == CbcPrefixMCPS;
    assert DecodeBuffer(b64, []) == Some([]);
    assert DecryptPayload(c, chain, []).0 == [];
  }

  /** Under zero padding, encrypting the empty message with a random block whose
      last byte is zero gives a line that the as-written `decrypt` cannot read
      without panicking; the guarded one reads the empty message back
      (LineRoundTrip). */
  lemma EmptyMessageZeroSeedPanics(c: BlockCipher, b64: Base64, pad: Padder, chain: seq<byte>, random: seq<byte>)
    requires c.Valid() && b64.Valid() && pad.Valid() && pad.AppendsZeros()
    requires |chain| == 8 && |random| == 8 && random[8 - 1] == 0
    requires !EndsInZeroBlock(CbcEncrypt(c, chain, random + pad.apply([], 8)))
    ensures
      var line := EncryptLine(c, b64, pad, chain, [], Some(random)).0;
      && line.Ok?
      && DecryptLineAsWritten(c, b64, chain, line.value).0 == Panicked
  {
    var plain := TrimRightZeros(random + pad.apply([], 8));
    ZeroSeedTrimsShort(pad, random);
    assert |plain| < 8;
    EncryptedLineDecrypts(c, b64, pad, chain, [], random);
  }

  /** Under zero padding, the empty message behind a seed block that ends in
      zero trims to less than one block. */
  lemma ZeroSeedTrimsShort(pad: Padder, random: seq<byte>)
    requires pad.AppendsZeros() && |random| == 8 && random[8 - 1] == 0
    ensures |TrimRightZeros(random + pad.apply([], 8))| < 8
  {
    var padded := pad.apply([], 8);
    assert padded == Zeros(|padded|);
    TrimRightZerosIgnoresZeroTail(random, |padded|);
  }

  /** After the zeros are trimmed, a CBC decryption that reaches past its first
      block is the same past that block whatever the starting chaining value. */
  lemma TrimmedDecryptChainFree(c: BlockCipher, chain1: seq<byte>, chain2: seq<byte>, x: seq<byte>)
    requires c.Valid() && |chain1| == 8 && |chain2| == 8
    requires |TrimRightZeros(CbcDecrypt(c, chain1, x))| > 8
    ensures |TrimRightZeros(CbcDecrypt(c, chain2, x))| == |TrimRightZeros(CbcDecrypt(c, chain1, x))|
    ensures TrimRightZeros(CbcDecrypt(c, chain2, x))[8..] == TrimRightZeros(CbcDecrypt(c, chain1, x))[8..]
  {
    assert |CbcDecrypt(c, chain1, x)| == |x| > 8;
    CbcDecryptFirstBlock(c, chain1, x);
    CbcDecryptFirstBlock(c, chain2, x);
    var rest := CbcDecrypt(c, x[..8], x[8..]);
    var head1 := Xor(c.decrypt(x[..8]), chain1);
    var head2 := Xor(c.decrypt(x[..8]), chain2);
    TrimRightZerosAppend(head1, rest);
    TrimRightZerosAppend(head2, rest);
    var t := TrimRightZeros(rest);
    assert (head1 + t)[8..] == t;
    assert (head2 + t)[8..] == t;
  }

  /** The decrypter's chaining value only reaches the first (random seed) block,
      which is discarded: a ciphertext line that decrypts to a non-empty
      message decrypts to the same message, and moves the chain to the same
      value, whatever chaining value the decrypter starts from. */
  lemma DecryptIgnoresChainForNonEmptyText(c: BlockCipher, b64: Base64, chain1: seq<byte>, chain2: seq<byte>, msg: seq<byte>)
    requires c.Valid() && b64.Valid() && |chain1| == 8 && |chain2| == 8
    requires Trim(msg).1
    requires DecryptLine(c, b64, chain1, msg).0.Ok? && DecryptLine(c, b64, chain1, msg).0.value != []
    ensures DecryptLine(c, b64, chain2, msg) == DecryptLine(c, b64, chain1, msg)
  {
    var decoded := DecodeBuffer(b64, Trim(msg).0).value;
    PayloadChainFree(c, chain1, chain2, decoded);
  }

  /** DecryptIgnoresChainForNonEmptyText at the level of the decoded buffer. */
  lemma PayloadChainFree(c: BlockCipher, chain1: seq<byte>, chain2: seq<byte>, decoded: seq<byte>)
    requires c.Valid() && |chain1| == 8 && |chain2| == 8
    requires |DecryptPayload(c, chain1, decoded).0| > 8
    ensures |DecryptPayload(c, chain2, decoded).0| == |DecryptPayload(c, chain1, decoded).0|
    ensures DecryptPayload(c, chain2, decoded).0[8..] == DecryptPayload(c, chain1, decoded).0[8..]
    ensures DecryptPayload(c, chain2, decoded).1 == DecryptPayload(c, chain1, decoded).1
  {
    var ciphertext := Realign(decoded);
    assert |TrimRightZeros(CbcDecrypt(c, chain1, ciphertext))| > 8;
    TrimmedDecryptChainFree(c, chain1, chain2, ciphertext);
  }

  /** One line sent from a sender codec to a receiver codec whose decrypter is
      in step with the sender's encrypter: the receiver reads the message back
      and the two chaining values are again in step. */
  method Exchange(sender: Cbc, receiver: Cbc, b64: Base64, pad: Padder, msg: seq<byte>, random: seq<byte>) returns (received: Result<seq<byte>, Error>)
    requires sender.Valid() && receiver.Valid() && sender.blow == receiver.blow && sender.encChain == receiver.decChain
    requires b64.Valid() && pad.Valid() && pad.AppendsZeros() && |random| == 8
    requires msg != [] ==> msg[|msg| - 1] != 0
    requires !EndsInZeroBlock(CbcEncrypt(sender.blow, sender.encChain, random + pad.apply(msg, 8)))
    modifies sender`encChain, receiver`decChain
    ensures sender.Valid() && receiver.Valid()
    ensures received == Ok(msg)
    ensures sender.encChain == receiver.decChain
  {
    LineRoundTrip(sender.blow, b64, pad, sender.encChain, msg, random);
    var line := sender.Encrypt(b64, pad, msg, Some(random));
    received := receiver.Decrypt(b64, line.value);
  }

  /** Two fresh codecs over the same cipher: a line one encrypts, the other
      decrypts back to the message. */
  method ExchangeFirstLine(blow: BlockCipher, b64: Base64, pad: Padder, msg: seq<byte>, random: seq<byte>) returns (received: Result<seq<byte>, Error>)
    requires blow.Valid() && b64.Valid() && pad.Valid() && pad.AppendsZeros() && |random| == 8
    requires msg != [] ==> msg[|msg| - 1] != 0
    requires !EndsInZeroBlock(CbcEncrypt(blow, Zeros(8), random + pad.apply(msg, 8)))
    ensures received == Ok(msg)
  {
    var sender := new Cbc(blow);
    var receiver := new Cbc(blow);
    received := Exchange(sender, receiver, b64, pad, msg, random);
  }
}
