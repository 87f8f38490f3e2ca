/** Machine words and polynomials over GF(2), both as sequences of bits.
    Bit i of a word, or the coefficient of x^i, sits at index i. */
module Gf2 {

  type Word = seq<bool>

  type Byte = w: seq<bool> | |w| == 8 witness [false, false, false, false, false, false, false, false]

  function Zeros(n: nat): (r: Word)
    ensures |r| == n && forall i :: 0 <= i < n ==> !r[i]
  {
    seq(n, _ => false)
  }

  /** The word 1 << k of width n. */
  function Bit(n: nat, k: nat): (r: Word)
    requires k < n
    ensures |r| == n && forall i :: 0 <= i < n ==> r[i] == (i == k)
  {
    seq(n, i => i == k)
  }

  function Xor(a: Word, b: Word): (r: Word)
    requires |a| == |b|
    ensures |r| == |a| && forall i :: 0 <= i < |r| ==> r[i] == (a[i] != b[i])
  {
    seq(|a|, i requires 0 <= i < |a| => a[i] != b[i])
  }

  function And(a: Word, b: Word): (r: Word)
    requires |a| == |b|
    ensures |r| == |a| && forall i :: 0 <= i < |r| ==> r[i] == (a[i] && b[i])
  {
    seq(|a|, i requires 0 <= i < |a| => a[i] && b[i])
  }

  function Or(a: Word, b: Word): (r: Word)
    requires |a| == |b|
    ensures |r| == |a| && forall i :: 0 <= i < |r| ==> r[i] == (a[i] || b[i])
  {
    seq(|a|, i requires 0 <= i < |a| => a[i] || b[i])
  }

  /** a << k: bits pushed past the width are lost. */
  function Shl(a: Word, k: nat): (r: Word)
    ensures |r| == |a| && forall i :: 0 <= i < |r| ==> r[i] == (k <= i && a[i - k])
  {
    seq(|a|, i requires 0 <= i < |a| => k <= i && a[i - k])
  }

  /** a >> k on an unsigned word. */
  function Shr(a: Word, k: nat): (r: Word)
    ensures |r| == |a| && forall i :: 0 <= i < |r| ==> r[i] == (i + k < |a| && a[i + k])
  {
    seq(|a|, i requires 0 <= i < |a| => i + k < |a| && a[i + k])
  }

  /** Conversion to an unsigned type of the given width: truncation or zero extension. */
  function Cast(a: Word, width: nat): (r: Word)
    ensures |r| == width && forall i :: 0 <= i < width ==> r[i] == (i < |a| && a[i])
  {
    seq(width, i requires 0 <= i < width => i < |a| && a[i])
  }

  /** The word whose low n bits are set: `sig_bits`. */
  function LowMask(width: nat, n: nat): (r: Word)
    requires n <= width
    ensures |r| == width && forall i :: 0 <= i < width ==> r[i] == (i < n)
  {
    seq(width, i requires 0 <= i < width => i < n)
  }

  function Rev(a: Word): (r: Word)
    ensures |r| == |a| && forall i :: 0 <= i < |r| ==> r[i] == a[|a| - 1 - i]
  {
    seq(|a|, i requires 0 <= i < |a| => a[|a| - 1 - i])
  }

  lemma RevRev(a: Word)
    ensures Rev(Rev(a)) == a
  {
    assert forall i :: 0 <= i < |a| ==> Rev(Rev(a))[i] == a[i];
  }

  lemma RevXor(a: Word, b: Word)
    requires |a| == |b|
    ensures Rev(Xor(a, b)) == Xor(Rev(a), Rev(b))
  {
  }

  /** A word whose low n bits are r and whose other bits are zero. */
  function Widen(r: Word, width: nat): (w: Word)
    requires |r| <= width
    ensures |w| == width && w[..|r|] == r
    ensures forall i :: |r| <= i < width ==> !w[i]
  {
    r + Zeros(width - |r|)
  }

  // ----- words as numbers (table indices) -----

  function ToNat(w: Word): nat {
    if w == [] then 0 else (if w[0] then 1 else 0) + 2 * ToNat(w[1..])
  }

  function FromNat(width: nat, k: nat): (w: Word)
    ensures |w| == width
  {
    if width == 0 then [] else [k % 2 == 1] + FromNat(width - 1, k / 2)
  }

  function Pow2(n: nat): (p: nat)
    ensures p > 0
  {
    if n == 0 then 1 else 2 * Pow2(n - 1)
  }

  lemma {:induction false} ToNatBound(w: Word)
    ensures ToNat(w) < Pow2(|w|)
  {
    if w != [] { ToNatBound(w[1..]); }
  }

  lemma {:induction false} FromToNat(w: Word)
    ensures FromNat(|w|, ToNat(w)) == w
  {
    if w != [] { FromToNat(w[1..]); }
  }

  lemma {:induction false} ToFromNat(width: nat, k: nat)
    requires k < Pow2(width)
    ensures ToNat(FromNat(width, k)) == k
  {
    if width != 0 {
      ToFromNat(width - 1, k / 2);
      assert FromNat(width, k)[1..] == FromNat(width - 1, k / 2);
    }
  }

  /** Bit i of the binary form of k. */
  lemma {:induction false} FromNatAt(width: nat, k: nat, i: nat)
    requires i < width
    ensures FromNat(width, k)[i] <==> (k / Pow2(i)) % 2 == 1
  {
    if i > 0 {
      FromNatAt(width - 1, k / 2, i - 1);
      DivideTwice(k, Pow2(i - 1));
    }
  }

  lemma DivideTwice(k: nat, m: nat)
    requires m > 0
    ensures (k / 2) / m == k / (2 * m)
  {
    var a, b := k / 2, (k / 2) / m;
    assert k == 2 * (b * m + a % m) + k % 2;
    assert b * m + a % m == a;
    assert 2 * m * b + (2 * (a % m) + k % 2) == k && 0 <= 2 * (a % m) + k % 2 < 2 * m;
    QuotientIs(k, 2 * m, b, 2 * (a % m) + k % 2);
  }

  lemma QuotientIs(k: nat, d: nat, q: nat, r: nat)
    requires d > 0 && k == d * q + r && r < d
    ensures k / d == q
  {
    var e := k / d - q;
    assert d * e == r - k % d;
    if e != 0 { MultipleMagnitude(d, e); }
  }

  lemma MultipleMagnitude(d: nat, e: int)
    requires e != 0
    ensures d * e >= d || d * e <= 0 - d
  {
    if e > 0 { assert d * e >= d; } else { assert d * e <= 0 - d; }
  }

  lemma ByteIndex(b: Byte)
    ensures ToNat(b) < 256 && FromNat(8, ToNat(b)) == b
  {
    ToNatBound(b);
    FromToNat(b);
    assert Pow2(8) == 256;
  }

  lemma IndexByte(k: nat)
    requires k < 256
    ensures ToNat(FromNat(8, k)) == k
  {
    assert Pow2(8) == 256;
    ToFromNat(8, k);
  }
}
