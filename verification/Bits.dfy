/**
  Machine words as sequences of bits, lowest first, and the few C operations the
  decoder uses on them.
*/
module Bits {
  import opened Common

  type Bits = seq<bool>

  type Word = w: seq<bool> | |w| == 32 witness seq(32, _ => false)

  function Zeros(n: nat): (b: Bits)
    ensures |b| == n
  {
    seq(n, _ => false)
  }

  function Ones(n: nat): (b: Bits)
    ensures |b| == n
  {
    seq(n, _ => true)
  }

  function ZeroExtend(b: Bits): Word
    requires |b| <= 32
  {
    b + Zeros(32 - |b|)
  }

  function SignExtend(b: Bits): Word
    requires 0 < |b| <= 32
  {
    b + seq(32 - |b|, _ => b[|b| - 1])
  }

  function And(a: Word, b: Word): Word {
    seq(32, i requires 0 <= i < 32 => a[i] && b[i])
  }

  function Or(a: Word, b: Word): Word {
    seq(32, i requires 0 <= i < 32 => a[i] || b[i])
  }

  function ShiftLeft(w: Word, n: nat): Word {
    if n >= 32 then Zeros(32) else Zeros(n) + w[..32 - n]
  }

  /** Bits [lo, lo+len) as an unsigned and as a signed field. */
  function X(w: Word, lo: nat, len: nat): Word
    requires lo + len <= 32
  {
    ZeroExtend(w[lo..lo + len])
  }

  function Xs(w: Word, lo: nat, len: nat): Word
    requires 0 < len && lo + len <= 32
  {
    SignExtend(w[lo..lo + len])
  }

  // --------------------------------------------------- small unsigned numbers

  function ToNat(b: Bits): nat {
    if b == [] then 0 else (if b[0] then 1 else 0) + 2 * ToNat(b[1..])
  }

  function FromNat(v: nat, n: nat): (b: Bits)
    ensures |b| == n
  {
    if n == 0 then [] else [v % 2 == 1] + FromNat(v / 2, n - 1)
  }

  lemma {:induction false} ToFromNat(v: nat, n: nat)
    requires v < Pow2(n)
    ensures ToNat(FromNat(v, n)) == v
  {
    if n > 0 {
      ToFromNat(v / 2, n - 1);
      assert FromNat(v, n)[1..] == FromNat(v / 2, n - 1);
    }
  }

  /** Bit i counts 2^i. */
  lemma {:induction false} BitOfNat(b: Bits, i: nat)
    requires i < |b|
    ensures (ToNat(b) / Pow2(i)) % 2 == if b[i] then 1 else 0
    decreases i
  {
    var rest := ToNat(b[1..]);
    assert ToNat(b) / 2 == rest;
    if i > 0 {
      BitOfNat(b[1..], i - 1);
      HalfFirst(ToNat(b), Pow2(i - 1));
    }
  }

  lemma HalfFirst(v: nat, p: nat)
    requires p > 0
    ensures v / (2 * p) == v / 2 / p
  {
    var q, r := v / 2 / p, v / 2 % p;
    assert v / 2 == p * q + r;
    assert v == 2 * p * q + (2 * r + v % 2) by { Distribute(2, p * q, r); }
    RemainderIs(v, 2 * p, q, 2 * r + v % 2);
  }

  lemma {:induction false} FromToNat(b: Bits)
    ensures ToNat(b) < Pow2(|b|)
    ensures FromNat(ToNat(b), |b|) == b
  {
    if b != [] {
      FromToNat(b[1..]);
      assert ToNat(b) / 2 == ToNat(b[1..]);
    }
  }
}
