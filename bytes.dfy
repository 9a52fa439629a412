/** Byte strings and the one `bytes` package routine the codec relies on. */
module Bytes {

  type byte = bv8

  /** A freshly made Go buffer of `n` bytes: all zero. */
  function Zeros(n: nat): (z: seq<byte>)
    ensures |z| == n
    ensures AllZero(z)
  {
    seq(n, _ => 0)
  }

  /** Concatenation regroups freely. */
  lemma AppendAssoc(a: seq<byte>, b: seq<byte>, c: seq<byte>)
    ensures a + (b + c) == (a + b) + c
  {
  }

  predicate AllZero(s: seq<byte>)
  {
    forall i :: 0 <= i < |s| ==> s[i] == 0
  }

  /** `s` is `t` followed by zero bytes only, and `t` does not end in a zero byte. */
  ghost predicate IsZeroTrimmed(s: seq<byte>, t: seq<byte>)
  {
    && |t| <= |s|
    && t == s[..|t|]
    && (t == [] || t[|t| - 1] != 0)
    && AllZero(s[|t|..])
  }

  /** `bytes.TrimRight(s, "\x00")`: `s` without its trailing run of zero bytes. */
  function TrimRightZeros(s: seq<byte>): (r: seq<byte>)
    ensures |r| <= |s| && r == s[..|r|]
    ensures r == [] || r[|r| - 1] != 0
    ensures forall i :: |r| <= i < |s| ==> s[i] == 0
    decreases |s|
  {
    if |s| > 0 && s[|s| - 1] == 0 then TrimRightZeros(s[..|s| - 1]) else s
  }

  /** The trailing-zero split of a byte string is unique, so TrimRightZeros is
      fully determined by its contract. */
  lemma TrimRightZerosUnique(s: seq<byte>, t: seq<byte>)
    requires IsZeroTrimmed(s, t)
    ensures TrimRightZeros(s) == t
  {
    var r := TrimRightZeros(s);
    if t != [] {
      assert s[|t| - 1] == t[|t| - 1] != 0;
    }
    assert |t| <= |r|;
    if r != [] {
      assert s[|r| - 1] == r[|r| - 1] != 0;
      assert forall i :: |t| <= i < |s| ==> s[i] == s[|t|..][i - |t|] == 0;
    }
  }

  /** Zero slack after a buffer never survives the trim. */
  lemma TrimRightZerosIgnoresZeroTail(s: seq<byte>, k: nat)
    ensures TrimRightZeros(s + Zeros(k)) == TrimRightZeros(s)
  {
    var t := TrimRightZeros(s);
    var s' := s + Zeros(k);
    assert s'[..|t|] == t;
    assert forall i :: |t| <= i < |s'| ==> s'[i] == 0;
    TrimRightZerosUnique(s', t);
  }

  /** Trimming the zeros of `t` followed by zeros gives `t` back exactly when
      `t` does not itself end in a zero byte. */
  lemma TrimRightZerosOfPadded(t: seq<byte>, k: nat)
    ensures TrimRightZeros(t + Zeros(k)) == t <==> (t == [] || t[|t| - 1] != 0)
  {
    var s := t + Zeros(k);
    assert s[..|t|] == t;
    if t == [] || t[|t| - 1] != 0 {
      assert forall i :: |t| <= i < |s| ==> s[i] == 0;
      TrimRightZerosUnique(s, t);
    }
  }

  /** Trimming a buffer whose tail `b` is not all zeros keeps the head `a`
      intact and trims the tail alone; when `b` is all zeros, no more than
      `a` survives. */
  lemma {:induction false} TrimRightZerosAppend(a: seq<byte>, b: seq<byte>)
    ensures TrimRightZeros(b) != [] ==> TrimRightZeros(a + b) == a + TrimRightZeros(b)
    ensures TrimRightZeros(b) == [] ==> |TrimRightZeros(a + b)| <= |a|
    decreases |b|
  {
    if b == [] {
      assert a + b == a;
    } else if b[|b| - 1] == 0 {
      var front := b[..|b| - 1];
      assert (a + b)[..|a + b| - 1] == a + front;
      TrimRightZerosAppend(a, front);
    } else {
      assert (a + b)[|a + b| - 1] == b[|b| - 1];
    }
  }
}
