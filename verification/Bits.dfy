/** Numbers as little-endian bit strings, and the machine operations that
    shift, mask and merge them.

    A number of so many bits and a string of as many bits determine each other,
    so that what the encoders do to their accumulators can be said of the bits:
    a mask takes a prefix, a shift drops one, and merging a number above
    another appends. */
module Bits {

  type Byte = x: nat | x < 256

  function Pow2(n: nat): (p: nat)
    ensures p >= 1
  {
    if n == 0 then 1 else 2 * Pow2(n - 1)
  }

  /** The `k` low bits of `n`, lowest first. */
  function ToBits(n: nat, k: nat): (r: seq<bool>)
    ensures |r| == k
  {
    if k == 0 then [] else [n % 2 == 1] + ToBits(n / 2, k - 1)
  }

  function FromBits(s: seq<bool>): nat {
    if s == [] then 0 else (if s[0] then 1 else 0) + 2 * FromBits(s[1..])
  }

  function Zeros(k: nat): seq<bool> { seq(k, i => false) }

  // ----- Machine operations on unsigned integers -----

  /** `a | b` */
  function Or(a: nat, b: nat): nat
    decreases a + b
  {
    if a == 0 then b
    else if b == 0 then a
    else (if a % 2 == 1 || b % 2 == 1 then 1 else 0) + 2 * Or(a / 2, b / 2)
  }

  /** `a & (2^k - 1)` */
  function Mask(a: nat, k: nat): nat {
    if k == 0 then 0 else a % 2 + 2 * Mask(a / 2, k - 1)
  }

  /** `a << n` with no bound on the word. */
  function Double(a: nat, n: nat): nat {
    if n == 0 then a else 2 * Double(a, n - 1)
  }

  /** `a << n` in a word of `width` bits: what leaves at the top is lost. */
  function Shl(a: nat, n: nat, width: nat): nat { Mask(Double(a, n), width) }

  /** `a >> n` */
  function Shr(a: nat, n: nat): nat {
    if n == 0 then a else Shr(a / 2, n - 1)
  }

  // ----- Round trips -----

  lemma FromBitsBound(s: seq<bool>)
    ensures FromBits(s) < Pow2(|s|)
  {
  }

  lemma {:induction false} FromToBits(n: nat, k: nat)
    requires n < Pow2(k)
    ensures FromBits(ToBits(n, k)) == n
  {
    if k > 0 {
      FromToBits(n / 2, k - 1);
    }
  }

  lemma {:induction false} ToFromBits(s: seq<bool>)
    ensures ToBits(FromBits(s), |s|) == s
  {
    if s != [] {
      ToFromBits(s[1..]);
      var (low, rest) := (if s[0] then 1 else 0, FromBits(s[1..]));
      assert (low + 2 * rest) / 2 == rest && (low + 2 * rest) % 2 == low;
    }
  }

  lemma {:induction false} FromBitsConcat(a: seq<bool>, b: seq<bool>)
    ensures FromBits(a + b) == FromBits(a) + Double(FromBits(b), |a|)
  {
    if a == [] {
      assert a + b == b;
    } else {
      assert (a + b)[1..] == a[1..] + b;
      FromBitsConcat(a[1..], b);
    }
  }

  lemma {:induction false} FromBitsZeros(k: nat)
    ensures FromBits(Zeros(k)) == 0
  {
    if k > 0 {
      assert Zeros(k)[1..] == Zeros(k - 1);
      FromBitsZeros(k - 1);
    }
  }

  lemma DoubleZero(n: nat)
    ensures Double(0, n) == 0
  {
  }

  /** Masking takes the low bits, shifting right drops them. */
  lemma {:induction false} TakeDrop(s: seq<bool>, k: nat)
    requires k <= |s|
    ensures Mask(FromBits(s), k) == FromBits(s[..k])
    ensures Shr(FromBits(s), k) == FromBits(s[k..])
    decreases k
  {
    if k > 0 {
      var (low, rest) := (if s[0] then 1 else 0, FromBits(s[1..]));
      assert (low + 2 * rest) / 2 == rest && (low + 2 * rest) % 2 == low;
      TakeDrop(s[1..], k - 1);
      assert s[..k][1..] == s[1..][..k - 1] && s[k..] == s[1..][k - 1..];
    }
  }

  lemma MaskSmall(a: nat, k: nat)
    requires a < Pow2(k)
    ensures Mask(a, k) == a
  {
  }

  lemma MaskBound(a: nat, k: nat)
    ensures Mask(a, k) < Pow2(k)
  {
  }

  /** One more bit of mask adds that bit or nothing. */
  lemma {:induction false} MaskStep(a: nat, k: nat)
    ensures Mask(a, k + 1) == Mask(a, k) || Mask(a, k + 1) == Mask(a, k) + Pow2(k)
    decreases k
  {
    if k > 0 {
      MaskStep(a / 2, k - 1);
    }
  }

  lemma {:induction false} OrIsConcat(a: nat, b: nat, k: nat)
    requires a < Pow2(k)
    ensures Or(a, Double(b, k)) == a + Double(b, k)
    decreases k
  {
    if a != 0 && Double(b, k) != 0 {
      OrIsConcat(a / 2, b, k - 1);
    }
  }

  lemma {:induction false} DoubleBound(v: nat, n: nat, k: nat)
    requires v < Pow2(k)
    ensures Double(v, n) < Pow2(n + k)
    decreases n
  {
    if n > 0 {
      DoubleBound(v, n - 1, k);
    }
  }

  lemma Pow2Monotone(a: nat, b: nat)
    requires a <= b
    ensures Pow2(a) <= Pow2(b)
  {
  }

  lemma {:induction false} FitsInWord(v: nat, n: nat, k: nat, width: nat)
    requires v < Pow2(k) && n + k <= width
    ensures Shl(v, n, width) == Double(v, n)
  {
    DoubleBound(v, n, k);
    Pow2Monotone(n + k, width);
    MaskSmall(Double(v, n), width);
  }

  /** Or-ing in a value shifted past the bits already there appends its bits, as
      long as the word is wide enough. */
  lemma {:induction false} OrShlAppends(s: seq<bool>, v: nat, k: nat, width: nat)
    requires v < Pow2(k) && |s| + k <= width
    ensures Or(FromBits(s), Shl(v, |s|, width)) == FromBits(s + ToBits(v, k))
  {
    FitsInWord(v, |s|, k, width);
    FromBitsBound(s);
    OrIsConcat(FromBits(s), v, |s|);
    FromToBits(v, k);
    FromBitsConcat(s, ToBits(v, k));
  }

  /** A value written in more bits than it needs is padded with zeros. */
  lemma {:induction false} ToBitsPads(s: seq<bool>, k: nat)
    requires |s| <= k
    ensures ToBits(FromBits(s), k) == s + Zeros(k - |s|)
    ensures FromBits(s) < Pow2(k)
  {
    var t := s + Zeros(k - |s|);
    FromBitsConcat(s, Zeros(k - |s|));
    FromBitsZeros(k - |s|);
    DoubleZero(|s|);
    ToFromBits(t);
    FromBitsBound(t);
  }
}
