/** Cipher block chaining over a block cipher, as in section 6.2 of NIST
    SP 800-38A: C[j] = CIPH(P[j] xor C[j-1]) and P[j] = CIPH⁻¹(C[j]) xor C[j-1],
    with C[0] the chaining value the operator holds before the call. This is
    what Go's `cipher.NewCBCEncrypter` / `NewCBCDecrypter` operators compute. */
module CbcMode {
  import opened Bytes
  import opened Primitives

  /** Byte-wise exclusive or of two blocks. */
  function Xor(a: seq<byte>, b: seq<byte>): (r: seq<byte>)
    requires |a| == |b|
    ensures |r| == |a|
    ensures forall i :: 0 <= i < |a| ==> r[i] == a[i] ^ b[i]
  {
    seq(|a|, i requires 0 <= i < |a| => a[i] ^ b[i])
  }

  lemma XorCancels(a: seq<byte>, b: seq<byte>)
    requires |a| == |b|
    ensures Xor(Xor(a, b), b) == a
  {
  }

  /** CBC encryption of the blocks of `p` starting from chaining value `iv`.
      A trailing partial block, which `CryptBlocks` refuses and the codec never
      passes, is left as it is so that the function is total. */
  function CbcEncrypt(c: BlockCipher, iv: seq<byte>, p: seq<byte>): (r: seq<byte>)
    requires c.Valid() && |iv| == 8
    ensures |r| == |p|
    decreases |p|
  {
    if |p| < 8 then p
    else
      var block := c.encrypt(Xor(p[..8], iv));
      block + CbcEncrypt(c, block, p[8..])
  }

  /** CBC decryption of the blocks of `x` starting from chaining value `iv`;
      a trailing partial block is left as it is, as in CbcEncrypt. */
  function CbcDecrypt(c: BlockCipher, iv: seq<byte>, x: seq<byte>): (r: seq<byte>)
    requires c.Valid() && |iv| == 8
    ensures |r| == |x|
    decreases |x|
  {
    if |x| < 8 then x
    else Xor(c.decrypt(x[..8]), iv) + CbcDecrypt(c, x[..8], x[8..])
  }

  /** The first step of CBC encryption: one block out, and its ciphertext
      becomes the chaining value for the rest. */
  lemma CbcEncryptFirstBlock(c: BlockCipher, iv: seq<byte>, p: seq<byte>)
    requires c.Valid() && |iv| == 8 && |p| >= 8
    ensures
      var block := c.encrypt(Xor(p[..8], iv));
      CbcEncrypt(c, iv, p) == block + CbcEncrypt(c, block, p[8..])
  {
  }

  /** The first step of CBC decryption: one block out, and the ciphertext block
      becomes the chaining value for the rest. */
  lemma CbcDecryptFirstBlock(c: BlockCipher, iv: seq<byte>, x: seq<byte>)
    requires c.Valid() && |iv| == 8 && |x| >= 8
    ensures CbcDecrypt(c, iv, x) == Xor(c.decrypt(x[..8]), iv) + CbcDecrypt(c, x[..8], x[8..])
  {
  }

  /** One loop step of block-by-block encryption: when the blocks done so far
      followed by the encryption of the remaining `tail` make up the whole
      result, so do the blocks done extended by the first block of `tail`,
      followed by the encryption of the rest chained from that block. */
  lemma CbcEncryptStep(c: BlockCipher, done: seq<byte>, iv: seq<byte>, tail: seq<byte>)
    requires c.Valid() && |iv| == 8 && |tail| >= 8
    ensures
      var block := c.encrypt(Xor(tail[..8], iv));
      done + CbcEncrypt(c, iv, tail) == (done + block) + CbcEncrypt(c, block, tail[8..])
  {
    CbcEncryptFirstBlock(c, iv, tail);
    var block := c.encrypt(Xor(tail[..8], iv));
    AppendAssoc(done, block, CbcEncrypt(c, block, tail[8..]));
  }

  /** One loop step of block-by-block decryption, as CbcEncryptStep. */
  lemma CbcDecryptStep(c: BlockCipher, done: seq<byte>, iv: seq<byte>, tail: seq<byte>)
    requires c.Valid() && |iv| == 8 && |tail| >= 8
    ensures
      var block := Xor(c.decrypt(tail[..8]), iv);
      done + CbcDecrypt(c, iv, tail) == (done + block) + CbcDecrypt(c, tail[..8], tail[8..])
  {
    CbcDecryptFirstBlock(c, iv, tail);
    AppendAssoc(done, Xor(c.decrypt(tail[..8]), iv), CbcDecrypt(c, tail[..8], tail[8..]));
  }

  /** The chaining value an operator holds after processing ciphertext `x`:
      the last ciphertext block, or the old value when `x` holds no block. */
  function LastBlock(iv: seq<byte>, x: seq<byte>): (r: seq<byte>)
    requires |iv| == 8
    ensures |r| == 8
  {
    if |x| < 8 then iv else x[|x| - 8..]
  }

  /** Appending a block makes it the last block. */
  lemma LastBlockOfAppend(iv: seq<byte>, x: seq<byte>, block: seq<byte>)
    requires |iv| == 8 && |block| == 8
    ensures LastBlock(iv, x + block) == block
  {
    assert (x + block)[|x|..] == block;
  }

  /** The step of a loop that encrypts `src` block by block: when the first `i`
      bytes are done and the rest is encrypted from `chain`, encrypting one
      more block advances both, and that block becomes the last one done. */
  lemma CbcEncryptLoopStep(c: BlockCipher, iv0: seq<byte>, src: seq<byte>, i: nat, done: seq<byte>, chain: seq<byte>)
    requires c.Valid() && |iv0| == 8 && |chain| == 8 && |src| % 8 == 0 && i % 8 == 0 && i < |src| && |done| == i
    requires done + CbcEncrypt(c, chain, src[i..]) == CbcEncrypt(c, iv0, src)
    ensures i + 8 <= |src| && (i + 8) % 8 == 0
    ensures
      var block := c.encrypt(Xor(src[i..i + 8], chain));
      && (done + block) + CbcEncrypt(c, block, src[i + 8..]) == CbcEncrypt(c, iv0, src)
      && LastBlock(iv0, done + block) == block
  {
    assert src[i..][..8] == src[i..i + 8] && src[i..][8..] == src[i + 8..];
    CbcEncryptStep(c, done, chain, src[i..]);
    LastBlockOfAppend(iv0, done, c.encrypt(Xor(src[i..i + 8], chain)));
  }

  /** The step of a loop that decrypts `src` block by block: with the first `i`
      bytes done, decrypting one more block and chaining from it leaves the
      overall result unchanged. */
  lemma CbcDecryptLoopStep(c: BlockCipher, src: seq<byte>, i: nat, done: seq<byte>, chain: seq<byte>)
    requires c.Valid() && |chain| == 8 && |src| % 8 == 0 && i % 8 == 0 && i < |src|
    ensures i + 8 <= |src| && (i + 8) % 8 == 0
    ensures
      done + CbcDecrypt(c, chain, src[i..])
      == (done + Xor(c.decrypt(src[i..i + 8]), chain)) + CbcDecrypt(c, src[i..i + 8], src[i + 8..])
  {
    assert src[i..][..8] == src[i..i + 8] && src[i..][8..] == src[i + 8..];
    CbcDecryptStep(c, done, chain, src[i..]);
  }

  /** Decryption undoes encryption under the same starting chaining value. */
  lemma {:induction false} CbcDecryptInvertsEncrypt(c: BlockCipher, iv: seq<byte>, p: seq<byte>)
    requires c.Valid() && |iv| == 8
    ensures CbcDecrypt(c, iv, CbcEncrypt(c, iv, p)) == p
    decreases |p|
  {
    if |p| >= 8 {
      var block := c.encrypt(Xor(p[..8], iv));
      var x := CbcEncrypt(c, iv, p);
      assert x[..8] == block;
      assert x[8..] == CbcEncrypt(c, block, p[8..]);
      CbcDecryptInvertsEncrypt(c, block, p[8..]);
      XorCancels(p[..8], iv);
      assert p == p[..8] + p[8..];
    }
  }

  /** Encryption undoes decryption: CBC is a permutation of block strings for each chaining value. */
  lemma {:induction false} CbcEncryptInvertsDecrypt(c: BlockCipher, iv: seq<byte>, x: seq<byte>)
    requires c.Valid() && |iv| == 8
    ensures CbcEncrypt(c, iv, CbcDecrypt(c, iv, x)) == x
    decreases |x|
  {
    if |x| >= 8 {
      var p := CbcDecrypt(c, iv, x);
      var first := Xor(c.decrypt(x[..8]), iv);
      assert p[..8] == first;
      assert p[8..] == CbcDecrypt(c, x[..8], x[8..]);
      XorCancels(c.decrypt(x[..8]), iv);
      assert c.encrypt(Xor(first, iv)) == x[..8];
      CbcEncryptInvertsDecrypt(c, x[..8], x[8..]);
      assert x == x[..8] + x[8..];
    }
  }

  /** The starting chaining value affects only the first decrypted block:
      that block differs exactly when the chaining values differ, and every
      later block is the same. */
  lemma CbcDecryptChainOnlyFirstBlock(c: BlockCipher, iv1: seq<byte>, iv2: seq<byte>, x: seq<byte>)
    requires c.Valid() && |iv1| == 8 && |iv2| == 8 && |x| >= 8
    ensures CbcDecrypt(c, iv1, x)[8..] == CbcDecrypt(c, iv2, x)[8..]
    ensures CbcDecrypt(c, iv1, x)[..8] == CbcDecrypt(c, iv2, x)[..8] <==> iv1 == iv2
  {
    var d := c.decrypt(x[..8]);
    var p1, p2 := CbcDecrypt(c, iv1, x), CbcDecrypt(c, iv2, x);
    assert p1[..8] == Xor(d, iv1) && p2[..8] == Xor(d, iv2);
    if Xor(d, iv1) == Xor(d, iv2) {
      forall i | 0 <= i < 8 ensures iv1[i] == iv2[i] {
        assert Xor(d, iv1)[i] == Xor(d, iv2)[i];
      }
    }
  }
}
