/** The collaborators the codec calls but does not define: the Blowfish block
    cipher, the standard base64 encoding and the package's `pad` helper.
    Each is a value carrying its operations, together with a predicate that
    states what the codec assumes of it.

    Blowfish's block size (`blowfish.BlockSize`) is 8 bytes; the model writes
    it as the literal 8 throughout, which keeps the verifier's arithmetic on
    lengths linear. */
module Primitives {
  import opened Wrappers
  import opened Bytes

  /** A keyed 8-byte block cipher: a permutation of 8-byte blocks and its inverse. */
  datatype BlockCipher = BlockCipher(encrypt: seq<byte> -> seq<byte>, decrypt: seq<byte> -> seq<byte>)
  {
    ghost predicate Valid()
    {
      && (forall b {:trigger encrypt(b)} :: |b| == 8 ==> |encrypt(b)| == 8 && decrypt(encrypt(b)) == b)
      && (forall b {:trigger decrypt(b)} :: |b| == 8 ==> |decrypt(b)| == 8)
      && (forall b {:trigger encrypt(decrypt(b))} :: |b| == 8 ==> encrypt(decrypt(b)) == b)
    }
  }

  /** `base64.StdEncoding.EncodedLen`: four characters per started group of
      three bytes (section 4 of RFC 4648, with `=` padding). */
  function EncodedLen(n: nat): nat
  {
    (n + 2) / 3 * 4
  }

  /** `base64.StdEncoding.DecodedLen`: the buffer size Go allocates before
      decoding `n` characters. */
  function DecodedLen(n: nat): nat
  {
    n / 4 * 3
  }

  /** The encoded length is a whole number of 4-character groups, just enough
      to hold `n` bytes at three bytes a group. */
  lemma EncodedLenBounds(n: nat)
    ensures EncodedLen(n) % 4 == 0
    ensures 4 * n <= 3 * EncodedLen(n) < 4 * n + 12
  {
  }

  /** The decode buffer holds three bytes for every complete group of four
      characters. */
  lemma DecodedLenBounds(n: nat)
    ensures DecodedLen(n) % 3 == 0
    ensures 4 * DecodedLen(n) <= 3 * n < 4 * DecodedLen(n) + 12
  {
  }

  /** A buffer sized for decoding an encoding of `n` bytes holds those `n`
      bytes, with fewer than three to spare. */
  lemma DecodedLenCoversEncodedLen(n: nat)
    ensures n <= DecodedLen(EncodedLen(n)) < n + 3
  {
    var e := EncodedLen(n);
    assert DecodedLen(e) == 3 * (e / 4);
  }

  datatype Base64 = Base64(encode: seq<byte> -> seq<byte>, decode: seq<byte> -> Option<seq<byte>>)
  {
    ghost predicate Valid()
    {
      && (forall b :: |encode(b)| == EncodedLen(|b|))
      && (forall b :: decode(encode(b)) == Some(b))
      && (forall s :: decode(s).Some? ==> |decode(s).value| <= DecodedLen(|s|))
    }
  }

  /** The package's `pad(src, n)` helper, which lies outside the modelled file. */
  datatype Padder = Padder(apply: (seq<byte>, nat) -> seq<byte>)
  {
    /** The one property the codec relies on: the result fills whole blocks. */
    ghost predicate Valid()
    {
      forall m {:trigger apply(m, 8)} :: |apply(m, 8)| % 8 == 0
    }

    /** Zero padding, the scheme the legacy protocol uses: the message followed by zero bytes. */
    ghost predicate AppendsZeros()
    {
      forall m {:trigger apply(m, 8)} :: |m| <= |apply(m, 8)| && apply(m, 8) == m + Zeros(|apply(m, 8)| - |m|)
    }
  }
}
