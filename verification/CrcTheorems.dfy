/** What the division of CrcDivision guarantees over whole messages. */
module CrcTheorems {
  import opened Gf2
  import opened CrcDivision

  // ----- the augmented form -----

  /** n zero bits: what the augmented form still owes a register. */
  function Flush(p: Word, r: Word): (z: Word)
    requires |p| == |r| > 0
    ensures |z| == |r|
  {
    Feed(p, r, Zeros(|p|))
  }

  lemma FeedSplitFirst(p: Word, r: Word, k: nat)
    requires |p| == |r| > 0
    ensures Feed(p, r, Zeros(k + 1)) == Feed(p, Step(p, r, false), Zeros(k))
  {
    assert Zeros(k + 1)[1..] == Zeros(k);
  }

  lemma FlushStep(p: Word, r: Word)
    requires |p| == |r| > 0
    ensures Flush(p, Step(p, r, false)) == Step(p, Flush(p, r), false)
  {
    FeedSplitFirst(p, r, |p|);
    ZerosSnoc(|p|);
    FeedSnoc(p, r, Zeros(|p|), false);
  }

  lemma TopOfOne(n: nat)
    requires n > 0
    ensures Top(Bit(n, 0), n) == Zeros(n - 1) + [true]
    ensures Shl(Bit(n, 0), n) == Zeros(n)
  {
  }

  lemma FlushOne(p: Word)
    requires |p| > 0
    ensures Flush(p, Bit(|p|, 0)) == Step(p, Zeros(|p|), true)
  {
    var n := |p|;
    FeedTop(p, Bit(n, 0), n);
    TopOfOne(n);
    FeedSnoc(p, Zeros(n), Zeros(n - 1), true);
    FeedZeros(p, n - 1);
    XorZero(Step(p, Zeros(n), true));
  }

  lemma FlushXor(p: Word, a: Word, b: Word)
    requires |p| == |a| == |b| > 0
    ensures Flush(p, Xor(a, b)) == Xor(Flush(p, a), Flush(p, b))
  {
    FeedLinear(p, a, b, Zeros(|p|), Zeros(|p|));
    XorSelf(Zeros(|p|));
  }

  lemma AugStepParts(p: Word, r: Word, bit: bool)
    requires |p| == |r| > 0
    ensures AugStep(p, r, bit) == if bit then Xor(Step(p, r, false), Bit(|p|, 0)) else Step(p, r, false)
  {
    var low := if bit then Bit(|p|, 0) else Zeros(|p|);
    XorZero(Shl(r, 1));
    XorAssoc(Shl(r, 1), p, low);
    XorAssoc(Shl(r, 1), low, p);
    XorComm(p, low);
  }

  lemma StepParts(p: Word, r: Word, bit: bool)
    requires |p| == |r| > 0
    ensures Step(p, r, bit) == if bit then Xor(Step(p, r, false), Step(p, Zeros(|p|), true)) else Step(p, r, false)
  {
    if bit {
      StepLinear(p, r, Zeros(|p|), false, true);
      XorZero(r);
    }
  }

  lemma FlushAugStep(p: Word, r: Word, bit: bool)
    requires |p| == |r| > 0
    ensures Flush(p, AugStep(p, r, bit)) == Step(p, Flush(p, r), bit)
  {
    AugStepParts(p, r, bit);
    StepParts(p, Flush(p, r), bit);
    FlushStep(p, r);
    FlushOne(p);
    FlushXor(p, Step(p, r, false), Bit(|p|, 0));
  }

  lemma {:induction false} FlushAugFeed(p: Word, r: Word, bits: seq<bool>)
    requires |p| == |r| > 0
    ensures Flush(p, AugFeed(p, r, bits)) == Feed(p, Flush(p, r), bits)
    decreases |bits|
  {
    if bits != [] {
      FlushAugStep(p, r, bits[0]);
      FlushAugFeed(p, AugStep(p, r, bits[0]), bits[1..]);
    }
  }

  /** The augmented division of a message and an n-bit tail is the plain division of the
      message, started from the flushed register, plus the tail. */
  lemma AugmentedTail(p: Word, r: Word, bits: seq<bool>, tail: seq<bool>)
    requires |p| == |r| == |tail| > 0
    ensures AugFeed(p, r, bits + tail) == Xor(Feed(p, Flush(p, r), bits), Rev(tail))
  {
    AugFeedConcat(p, r, bits, tail);
    AugFeedPrefix(p, AugFeed(p, r, bits), tail);
    FlushAugFeed(p, r, bits);
    assert Inject(|p|, tail) == Rev(tail);
  }

  /** With a zero tail the augmented division is the plain one. */
  lemma AugmentedZeroTail(p: Word, r: Word, bits: seq<bool>)
    requires |p| == |r| > 0
    ensures AugFeed(p, r, bits + Zeros(|p|)) == Feed(p, Flush(p, r), bits)
  {
    AugmentedTail(p, r, bits, Zeros(|p|));
    assert Rev(Zeros(|p|)) == Zeros(|p|);
    XorZero(Feed(p, Flush(p, r), bits));
  }

  lemma XorIsZero(a: Word, b: Word)
    requires |a| == |b|
    ensures Xor(a, b) == Zeros(|a|) <==> a == b
  {
    if Xor(a, b) == Zeros(|a|) {
      forall i | 0 <= i < |a| ensures a[i] == b[i] { assert !Xor(a, b)[i]; }
    }
  }

  /** Exactly one n-bit tail brings the augmented division to zero: the remainder itself,
      highest bit first. */
  lemma AugmentedCheck(p: Word, r: Word, bits: seq<bool>, tail: seq<bool>)
    requires |p| == |r| == |tail| > 0
    ensures AugFeed(p, r, bits + tail) == Zeros(|p|) <==> tail == Rev(Feed(p, Flush(p, r), bits))
  {
    AugmentedTail(p, r, bits, tail);
    XorIsZero(Feed(p, Flush(p, r), bits), Rev(tail));
    RevRev(tail);
    RevRev(Feed(p, Flush(p, r), bits));
  }

  // ----- bursts of errors -----

  lemma StepKernel(p: Word, r: Word)
    requires |p| == |r| > 0 && p[0]
    requires Step(p, r, false) == Zeros(|p|)
    ensures r == Zeros(|p|)
  {
    var n, s := |p|, Step(p, r, false);
    assert !s[0];
    forall i | 0 <= i < n ensures !r[i] {
      if i < n - 1 { assert !s[i + 1] && s[i + 1] == r[i]; }
    }
  }

  lemma {:induction false} FeedZerosKernel(p: Word, r: Word, k: nat)
    requires |p| == |r| > 0 && p[0]
    requires Feed(p, r, Zeros(k)) == Zeros(|p|)
    ensures r == Zeros(|p|)
    decreases k
  {
    if k > 0 {
      FeedSplitFirst(p, r, k - 1);
      FeedZerosKernel(p, Step(p, r, false), k - 1);
      StepKernel(p, r);
    }
  }

  /** The register whose highest bits are the given block. */
  function Aligned(n: nat, block: seq<bool>): (x: Word)
    requires |block| <= n
    ensures |x| == n
    ensures forall i :: 0 <= i < n ==> x[i] == (n - 1 - i < |block| && block[n - 1 - i])
  {
    seq(n, i requires 0 <= i < n => n - 1 - i < |block| && block[n - 1 - i])
  }

  lemma AlignedTop(n: nat, block: seq<bool>)
    requires |block| <= n
    ensures Top(Aligned(n, block), |block|) == block
    ensures Shl(Aligned(n, block), |block|) == Zeros(n)
  {
    assert forall i :: 0 <= i < |block| ==> Top(Aligned(n, block), |block|)[i] == block[i];
  }

  /** A block of at most n bits reaches the remainder as if it had started there. */
  lemma FeedAligned(p: Word, block: seq<bool>)
    requires 0 < |p| && |block| <= |p|
    ensures Feed(p, Zeros(|p|), block) == Feed(p, Aligned(|p|, block), Zeros(|block|))
  {
    FeedTop(p, Aligned(|p|, block), |block|);
    AlignedTop(|p|, block);
    XorZero(Feed(p, Zeros(|p|), block));
  }

  lemma BlockKernel(p: Word, block: seq<bool>)
    requires 0 < |p| && |block| <= |p| && p[0]
    requires Feed(p, Zeros(|p|), block) == Zeros(|p|)
    ensures block == Zeros(|block|)
  {
    FeedAligned(p, block);
    FeedZerosKernel(p, Aligned(|p|, block), |block|);
    forall i | 0 <= i < |block| ensures !block[i] {
      assert Aligned(|p|, block)[|p| - 1 - i] == block[i];
    }
  }

  /** a and b agree outside the window [lo, hi). */
  predicate SameOutside(a: seq<bool>, b: seq<bool>, lo: nat, hi: nat) {
    |a| == |b| && lo <= hi <= |a| && a[..lo] == b[..lo] && a[hi..] == b[hi..]
  }

  lemma WindowSplit(a: seq<bool>, b: seq<bool>, lo: nat, hi: nat)
    requires SameOutside(a, b, lo, hi)
    ensures Xor(a, b) == Zeros(lo) + Xor(a[lo..hi], b[lo..hi]) + Zeros(|a| - hi)
  {
    var x, y := Xor(a, b), Zeros(lo) + Xor(a[lo..hi], b[lo..hi]) + Zeros(|a| - hi);
    forall i | 0 <= i < |a| ensures x[i] == y[i] {
      if i < lo {
        assert a[i] == a[..lo][i] == b[..lo][i] == b[i];
      } else if hi <= i {
        assert a[i] == a[hi..][i - hi] == b[hi..][i - hi] == b[i];
      }
    }
  }

  lemma WindowNonzero(a: seq<bool>, b: seq<bool>, lo: nat, hi: nat)
    requires SameOutside(a, b, lo, hi)
    requires Xor(a[lo..hi], b[lo..hi]) == Zeros(hi - lo)
    ensures a == b
  {
    XorIsZero(a[lo..hi], b[lo..hi]);
    assert a == a[..lo] + a[lo..hi] + a[hi..];
    assert b == b[..lo] + b[lo..hi] + b[hi..];
  }

  /** The difference of two registers fed with messages that agree outside a window. */
  lemma WindowDifference(p: Word, r: Word, a: seq<bool>, b: seq<bool>, lo: nat, hi: nat)
    requires |p| == |r| > 0 && SameOutside(a, b, lo, hi)
    ensures Xor(Feed(p, r, a), Feed(p, r, b))
         == Feed(p, Feed(p, Zeros(|p|), Xor(a[lo..hi], b[lo..hi])), Zeros(|a| - hi))
  {
    FeedLinear(p, r, r, a, b);
    XorSelf(r);
    WindowSplit(a, b, lo, hi);
    var w, z := Xor(a[lo..hi], b[lo..hi]), Zeros(|a| - hi);
    FeedConcat(p, Zeros(|p|), Zeros(lo) + w, z);
    FeedConcat(p, Zeros(|p|), Zeros(lo), w);
    FeedZeros(p, lo);
  }

  /** When the divisor has a constant term, a change confined to |p| consecutive bits always
      changes the remainder. */
  lemma BurstDetected(p: Word, r: Word, a: seq<bool>, b: seq<bool>, lo: nat, hi: nat)
    requires |p| == |r| > 0 && p[0]
    requires SameOutside(a, b, lo, hi) && hi - lo <= |p| && a != b
    ensures Feed(p, r, a) != Feed(p, r, b)
  {
    if Feed(p, r, a) == Feed(p, r, b) {
      var w := Xor(a[lo..hi], b[lo..hi]);
      WindowDifference(p, r, a, b, lo, hi);
      XorSelf(Feed(p, r, a));
      FeedZerosKernel(p, Feed(p, Zeros(|p|), w), |a| - hi);
      BlockKernel(p, w);
      WindowNonzero(a, b, lo, hi);
      assert false;
    }
  }

  /** A nonzero register that one zero bit clears, when the divisor has no constant term. */
  lemma StepKernelEven(p: Word) returns (x: Word)
    requires |p| > 0 && !p[0]
    ensures |x| == |p| && x != Zeros(|p|) && Step(p, x, false) == Zeros(|p|)
  {
    var n := |p|;
    x := seq(n, i requires 0 <= i < n => if i == n - 1 then true else p[i + 1]);
    assert x[n - 1] && !Zeros(n)[n - 1];
    var s := Step(p, x, false);
    assert forall i :: 0 <= i < n ==> !s[i];
  }

  lemma NoBitIsZero(x: Word)
    ensures (forall i :: 0 <= i < |x| ==> !x[i]) ==> x == Zeros(|x|)
  {
  }

  lemma RevNonzero(x: Word)
    requires x != Zeros(|x|)
    ensures Rev(x) != Zeros(|x|)
  {
    NoBitIsZero(x);
    var i :| 0 <= i < |x| && x[i];
    assert Rev(x)[|x| - 1 - i];
  }

  lemma AlignedRev(x: Word)
    ensures Aligned(|x|, Rev(x)) == x
  {
  }

  lemma ClearedAtOnce(p: Word, x: Word)
    requires |p| == |x| > 0 && Step(p, x, false) == Zeros(|p|)
    ensures Feed(p, x, Zeros(|p|)) == Zeros(|p|)
  {
    FeedSplitFirst(p, x, |p| - 1);
    FeedZeros(p, |p| - 1);
  }

  lemma UndetectedEven(p: Word) returns (a: seq<bool>, b: seq<bool>)
    requires |p| > 0 && !p[0]
    ensures |a| == |b| == |p| && a != b && Feed(p, Zeros(|p|), a) == Feed(p, Zeros(|p|), b)
  {
    var x := StepKernelEven(p);
    a, b := Zeros(|p|), Rev(x);
    RevNonzero(x);
    FeedZeros(p, |p|);
    AlignedRev(x);
    FeedAligned(p, b);
    ClearedAtOnce(p, x);
  }

  lemma FinishInjective(r: Word, s: Word, finalXor: Word, reflectRem: bool)
    requires |r| == |s| == |finalXor|
    requires Finish(r, finalXor, reflectRem) == Finish(s, finalXor, reflectRem)
    ensures r == s
  {
    var x, y := if reflectRem then Rev(r) else r, if reflectRem then Rev(s) else s;
    forall i | 0 <= i < |x| ensures x[i] == y[i] {
      assert Xor(x, finalXor)[i] == Xor(y, finalXor)[i];
    }
    RevRev(r);
    RevRev(s);
  }

  lemma ByteBitsInjective(x: Byte, y: Byte, reflectIn: bool)
    requires ByteBits(x, reflectIn) == ByteBits(y, reflectIn)
    ensures x == y
  {
    RevRev(x);
    RevRev(y);
  }

  lemma SplitEqual<T>(a: seq<T>, b: seq<T>, c: seq<T>, d: seq<T>)
    requires |a| == |c| && a + b == c + d
    ensures a == c && b == d
  {
    assert a == (a + b)[..|a|] && b == (a + b)[|a|..];
    assert c == (c + d)[..|c|] && d == (c + d)[|c|..];
  }

  lemma {:induction false} MessageBitsInjective(a: seq<Byte>, b: seq<Byte>, reflectIn: bool)
    requires |a| == |b| && MessageBits(a, reflectIn) == MessageBits(b, reflectIn)
    ensures a == b
  {
    hide ByteBits;
    if a != [] {
      SplitEqual(ByteBits(a[0], reflectIn), MessageBits(a[1..], reflectIn),
                 ByteBits(b[0], reflectIn), MessageBits(b[1..], reflectIn));
      ByteBitsInjective(a[0], b[0], reflectIn);
      MessageBitsInjective(a[1..], b[1..], reflectIn);
      assert a == [a[0]] + a[1..] && b == [b[0]] + b[1..];
    }
  }

  /** Two messages of equal length that differ, but only within |p| consecutive bits in
      processing order, never have the same checksum when the divisor is odd. */
  lemma ChecksumDetectsBurst(p: Word, init: Word, finalXor: Word, reflectIn: bool, reflectRem: bool,
                             a: seq<Byte>, b: seq<Byte>, lo: nat, hi: nat)
    requires |p| == |init| == |finalXor| > 0 && p[0]
    requires |a| == |b| && a != b && hi - lo <= |p|
    requires SameOutside(MessageBits(a, reflectIn), MessageBits(b, reflectIn), lo, hi)
    ensures Checksum(p, init, finalXor, reflectIn, reflectRem, a) != Checksum(p, init, finalXor, reflectIn, reflectRem, b)
  {
    var x, y := MessageBits(a, reflectIn), MessageBits(b, reflectIn);
    if x == y { MessageBitsInjective(a, b, reflectIn); }
    BurstDetected(p, init, x, y, lo, hi);
    if Checksum(p, init, finalXor, reflectIn, reflectRem, a) == Checksum(p, init, finalXor, reflectIn, reflectRem, b) {
      FinishInjective(Feed(p, init, x), Feed(p, init, y), finalXor, reflectRem);
      assert false;
    }
  }

  // ----- exactly which divisors detect every burst -----

  /** Messages of equal length that differ, but only within |p| consecutive bits in processing
      order, never share a checksum. */
  ghost predicate DetectsBursts(p: Word, init: Word, finalXor: Word, reflectIn: bool, reflectRem: bool)
    requires |p| == |init| == |finalXor| > 0
  {
    forall a: seq<Byte>, b: seq<Byte>, lo: nat, hi: nat ::
      |a| == |b| && a != b && hi - lo <= |p| && SameOutside(MessageBits(a, reflectIn), MessageBits(b, reflectIn), lo, hi)
      ==> Checksum(p, init, finalXor, reflectIn, reflectRem, a) != Checksum(p, init, finalXor, reflectIn, reflectRem, b)
  }

  /** The message with the given bits in processing order. */
  function BytesOf(bits: seq<bool>, reflectIn: bool): (msg: seq<Byte>)
    requires |bits| % 8 == 0
    ensures |msg| == |bits| / 8
  {
    if bits == [] then [] else [ByteBits(bits[..8], reflectIn)] + BytesOf(bits[8..], reflectIn)
  }

  lemma {:induction false} BitsOfBytes(bits: seq<bool>, reflectIn: bool)
    requires |bits| % 8 == 0
    ensures MessageBits(BytesOf(bits, reflectIn), reflectIn) == bits
    decreases |bits|
  {
    if bits != [] {
      RevRev(bits[..8]);
      BitsOfBytes(bits[8..], reflectIn);
      assert BytesOf(bits, reflectIn)[1..] == BytesOf(bits[8..], reflectIn);
      assert bits == bits[..8] + bits[8..];
    }
  }

  /** Blocks that collide from the zero register collide from any register. */
  lemma CollideFromAnywhere(p: Word, r: Word, a: seq<bool>, b: seq<bool>)
    requires |p| == |r| > 0 && |a| == |b| && Feed(p, Zeros(|p|), a) == Feed(p, Zeros(|p|), b)
    ensures Feed(p, r, a) == Feed(p, r, b)
  {
    XorZero(r);
    XorZero(a);
    XorZero(b);
    FeedLinear(p, r, Zeros(|p|), Zeros(|a|), a);
    FeedLinear(p, r, Zeros(|p|), Zeros(|b|), b);
  }

  lemma PaddedWindow(m: nat, x: seq<bool>, y: seq<bool>)
    requires |x| == |y|
    ensures SameOutside(Zeros(m) + x, Zeros(m) + y, m, m + |x|)
  {
    assert (Zeros(m) + x)[..m] == Zeros(m) == (Zeros(m) + y)[..m];
  }

  /** For an even divisor two colliding blocks, filled up to whole bytes in front, are two messages
      that differ within |p| bits and have one checksum, whatever the settings. */
  lemma UndetectedMessages(p: Word, init: Word, finalXor: Word, reflectIn: bool, reflectRem: bool)
    returns (a: seq<Byte>, b: seq<Byte>, lo: nat, hi: nat)
    requires |p| == |init| == |finalXor| > 0 && !p[0]
    ensures |a| == |b| && a != b && hi - lo <= |p|
    ensures SameOutside(MessageBits(a, reflectIn), MessageBits(b, reflectIn), lo, hi)
    ensures Checksum(p, init, finalXor, reflectIn, reflectRem, a) == Checksum(p, init, finalXor, reflectIn, reflectRem, b)
  {
    hide Feed, BytesOf, MessageBits, Finish, SameOutside;
    var x, y := UndetectedEven(p);
    var z := Zeros(7 * |p|);
    lo, hi := |z|, |z| + |p|;
    a, b := BytesOf(z + x, reflectIn), BytesOf(z + y, reflectIn);
    BitsOfBytes(z + x, reflectIn);
    BitsOfBytes(z + y, reflectIn);
    assert z + x != z + y by { assert (z + x)[|z|..] == x && (z + y)[|z|..] == y; }
    PaddedWindow(|z|, x, y);
    FeedConcat(p, init, z, x);
    FeedConcat(p, init, z, y);
    CollideFromAnywhere(p, Feed(p, init, z), x, y);
  }

  /** Every burst of at most |p| bits changes the checksum exactly when the truncated divisor is odd. */
  lemma BurstsDetectedIffOdd(p: Word, init: Word, finalXor: Word, reflectIn: bool, reflectRem: bool)
    requires |p| == |init| == |finalXor| > 0
    ensures DetectsBursts(p, init, finalXor, reflectIn, reflectRem) <==> p[0]
  {
    if p[0] {
      forall a: seq<Byte>, b: seq<Byte>, lo: nat, hi: nat
        | |a| == |b| && a != b && hi - lo <= |p| && SameOutside(MessageBits(a, reflectIn), MessageBits(b, reflectIn), lo, hi)
        ensures Checksum(p, init, finalXor, reflectIn, reflectRem, a) != Checksum(p, init, finalXor, reflectIn, reflectRem, b)
      {
        ChecksumDetectsBurst(p, init, finalXor, reflectIn, reflectRem, a, b, lo, hi);
      }
    } else {
      var a, b, lo, hi := UndetectedMessages(p, init, finalXor, reflectIn, reflectRem);
    }
  }

  // ----- the remainder of polynomial division -----
  // Dividends, quotients and products are listed highest coefficient first.

  /** The full divisor x^n + p(x), highest coefficient first. */
  function Divisor(p: Word): (d: seq<bool>)
    ensures |d| == |p| + 1
  {
    [true] + Rev(p)
  }

  /** The product of quotient q and the divisor, by schoolbook multiplication. */
  function Product(p: Word, q: seq<bool>): (m: seq<bool>)
    ensures |m| == |q| + |p|
    decreases |q|
  {
    if q == [] then Zeros(|p|)
    else
      var k := |q| - 1;
      ProductNext(p, Product(p, q[..k]), q[k])
  }

  /** The product m after one more quotient bit. */
  function ProductNext(p: Word, m: seq<bool>, bit: bool): (m': seq<bool>)
    requires |m| >= |p|
    ensures |m'| == |m| + 1
  {
    var shifted := m + [false];
    if bit then Xor(shifted, Zeros(|m| - |p|) + Divisor(p)) else shifted
  }

  /** The quotient bits the division produces. */
  function Quotient(p: Word, r: Word, bits: seq<bool>): (q: seq<bool>)
    requires |p| == |r| > 0
    ensures |q| == |bits|
    decreases |bits|
  {
    if bits == [] then []
    else
      var k := |bits| - 1;
      Quotient(p, r, bits[..k]) + [Feed(p, r, bits[..k])[|r| - 1] != bits[k]]
  }

  /** Message times x^n, plus the initial register times x^k. */
  function Dividend(r: Word, bits: seq<bool>): (d: seq<bool>)
    ensures |d| == |bits| + |r|
  {
    Xor(bits + Zeros(|r|), Rev(r) + Zeros(|bits|))
  }

  /** q is a quotient and s an n-bit remainder of dividing d. */
  predicate Divides(p: Word, d: seq<bool>, q: seq<bool>, s: Word) {
    |s| == |p| && |d| == |q| + |p| && d == Xor(Product(p, q), Zeros(|q|) + Rev(s))
  }

  lemma ProductSnoc(p: Word, q: seq<bool>, out: bool)
    ensures Product(p, q + [out])
         == if out then Xor(Product(p, q) + [false], Zeros(|q|) + Divisor(p)) else Product(p, q) + [false]
  {
    assert (q + [out])[..|q|] == q;
  }

  lemma DividendSnoc(r: Word, bits: seq<bool>, bit: bool)
    ensures Dividend(r, bits + [bit]) == Xor(Dividend(r, bits) + [false], Zeros(|bits|) + ([bit] + Zeros(|r|)))
  {
  }

  lemma ShiftIn(r: Word, bit: bool)
    requires |r| > 0
    ensures Xor(Rev(r) + [false], [bit] + Zeros(|r|)) == [r[|r| - 1] != bit] + Rev(Shl(r, 1))
  {
    var x, y := Xor(Rev(r) + [false], [bit] + Zeros(|r|)), [r[|r| - 1] != bit] + Rev(Shl(r, 1));
    forall i | 0 <= i < |x| ensures x[i] == y[i] {
      if i > 0 { assert y[i] == (i < |r| && r[|r| - i - 1]); }
    }
  }

  lemma TakeDivisor(p: Word, a: Word)
    requires |p| == |a|
    ensures [true] + Rev(a) == Xor(Divisor(p), [false] + Rev(Xor(a, p)))
    ensures [false] + Rev(a) == Xor(Zeros(|p| + 1), [false] + Rev(a))
  {
    XorZero([false] + Rev(a));
  }

  /** One more bit: the old remainder, shifted and joined by the new bit, is the quotient bit
      times the divisor plus the new remainder. */
  lemma StepDivides(p: Word, r: Word, bit: bool)
    requires |p| == |r| > 0
    ensures Xor(Rev(r) + [false], [bit] + Zeros(|r|))
         == Xor(if r[|r| - 1] != bit then Divisor(p) else Zeros(|p| + 1), [false] + Rev(Step(p, r, bit)))
  {
    ShiftIn(r, bit);
    TakeDivisor(p, Shl(r, 1));
  }

  lemma PadXor(k: nat, a: seq<bool>, b: seq<bool>)
    requires |a| == |b|
    ensures Xor(Zeros(k) + a, Zeros(k) + b) == Zeros(k) + Xor(a, b)
  {
  }

  lemma AppendXor(m: seq<bool>, k: nat, a: seq<bool>)
    requires |m| == k + |a|
    ensures Xor(m, Zeros(k) + a) + [false] == Xor(m + [false], Zeros(k) + (a + [false]))
  {
  }

  lemma ProductTerm(p: Word, q: seq<bool>, out: bool)
    ensures Product(p, q + [out])
         == Xor(Product(p, q) + [false], Zeros(|q|) + if out then Divisor(p) else Zeros(|p| + 1))
  {
    ProductSnoc(p, q, out);
    if !out {
      assert Zeros(|q|) + Zeros(|p| + 1) == Zeros(|q| + |p| + 1);
      XorZero(Product(p, q) + [false]);
    }
  }

  lemma RegroupPadded(m: seq<bool>, k: nat, a: seq<bool>, b: seq<bool>)
    requires |m| == k + |a| && |a| == |b|
    ensures Xor(Xor(m, Zeros(k) + a), Zeros(k) + b) == Xor(m, Zeros(k) + Xor(a, b))
  {
    XorAssoc(m, Zeros(k) + a, Zeros(k) + b);
    PadXor(k, a, b);
  }

  lemma PadOnce(k: nat, a: seq<bool>)
    ensures Zeros(k) + ([false] + a) == Zeros(k + 1) + a
  {
  }

  lemma DividesSnoc(p: Word, d: seq<bool>, q: seq<bool>, r: Word, bit: bool)
    requires |p| == |r| > 0 && Divides(p, d, q, r)
    ensures Divides(p, Xor(d + [false], Zeros(|q|) + ([bit] + Zeros(|r|))), q + [r[|r| - 1] != bit], Step(p, r, bit))
  {
    var k, out := |q|, r[|r| - 1] != bit;
    var m, a, b := Product(p, q) + [false], Rev(r) + [false], [bit] + Zeros(|r|);
    var t, s := if out then Divisor(p) else Zeros(|p| + 1), [false] + Rev(Step(p, r, bit));
    assert d + [false] == Xor(m, Zeros(k) + a) by { AppendXor(Product(p, q), k, Rev(r)); }
    assert Xor(d + [false], Zeros(k) + b) == Xor(m, Zeros(k) + Xor(a, b)) by { RegroupPadded(m, k, a, b); }
    assert Xor(a, b) == Xor(t, s) by { StepDivides(p, r, bit); }
    assert Xor(m, Zeros(k) + Xor(t, s)) == Xor(Xor(m, Zeros(k) + t), Zeros(k) + s) by { RegroupPadded(m, k, t, s); }
    ProductTerm(p, q, out);
    PadOnce(k, Rev(Step(p, r, bit)));
  }

  lemma QuotientSnoc(p: Word, r: Word, bits: seq<bool>, bit: bool)
    requires |p| == |r| > 0
    ensures Quotient(p, r, bits + [bit]) == Quotient(p, r, bits) + [Feed(p, r, bits)[|r| - 1] != bit]
  {
    assert (bits + [bit])[..|bits|] == bits;
  }

  lemma FeedDividesSnoc(p: Word, r: Word, bits: seq<bool>, bit: bool, d: seq<bool>, q: seq<bool>, s: Word)
    requires |p| == |r| == |s| > 0
    requires d == Dividend(r, bits) && q == Quotient(p, r, bits) && s == Feed(p, r, bits)
    requires Divides(p, d, q, s)
    ensures Divides(p, Dividend(r, bits + [bit]), q + [s[|s| - 1] != bit], Step(p, s, bit))
  {
    DividesSnoc(p, d, q, s, bit);
    DividendSnoc(r, bits, bit);
  }

  /** Bit-at-a-time feeding performs polynomial division: the quotient bits and the final
      register are a quotient and a remainder of the whole dividend. */
  lemma {:induction false} FeedDivides(p: Word, r: Word, bits: seq<bool>)
    requires |p| == |r| > 0
    ensures Divides(p, Dividend(r, bits), Quotient(p, r, bits), Feed(p, r, bits))
    decreases |bits|
  {
    hide Xor, Zeros, Rev, Step;
    if bits == [] {
      assert Dividend(r, bits) == Xor(Product(p, []), Zeros(0) + Rev(r));
    } else {
      var init, last := bits[..|bits| - 1], bits[|bits| - 1];
      FeedDivides(p, r, init);
      FeedDividesSnoc(p, r, init, last, Dividend(r, init), Quotient(p, r, init), Feed(p, r, init));
      assert bits == init + [last];
      assert Quotient(p, r, bits) == Quotient(p, r, init) + [Feed(p, r, init)[|r| - 1] != last] by {
        QuotientSnoc(p, r, init, last);
      }
      assert Feed(p, r, bits) == Step(p, Feed(p, r, init), last) by {
        FeedSnoc(p, r, init, last);
      }
    }
  }

  lemma ProductTermLinear(p: Word, m: seq<bool>, n: seq<bool>, a: bool, b: bool)
    requires |m| == |n| >= |p|
    ensures ProductNext(p, Xor(m, n), a != b) == Xor(ProductNext(p, m, a), ProductNext(p, n, b))
  {
    var x, y := ProductNext(p, Xor(m, n), a != b), Xor(ProductNext(p, m, a), ProductNext(p, n, b));
    assert forall i :: 0 <= i < |x| ==> x[i] == y[i];
  }

  lemma {:induction false} ProductLinear(p: Word, q: seq<bool>, w: seq<bool>)
    requires |q| == |w|
    ensures Product(p, Xor(q, w)) == Xor(Product(p, q), Product(p, w))
    decreases |q|
  {
    if q == [] {
      XorSelf(Zeros(|p|));
    } else {
      var k := |q| - 1;
      ProductLinear(p, q[..k], w[..k]);
      assert Xor(q, w)[..k] == Xor(q[..k], w[..k]);
      ProductTermLinear(p, Product(p, q[..k]), Product(p, w[..k]), q[k], w[k]);
    }
  }

  lemma {:induction false} ProductKernel(p: Word, w: seq<bool>)
    requires |p| > 0
    requires forall i :: 0 <= i < |w| ==> !Product(p, w)[i]
    ensures w == Zeros(|w|) && Product(p, w) == Zeros(|w| + |p|)
    decreases |w|
  {
    if w != [] {
      var k := |w| - 1;
      forall i | 0 <= i < k ensures !Product(p, w[..k])[i] {
        assert !Product(p, w)[i];
      }
      ProductKernel(p, w[..k]);
      assert !Product(p, w)[k];
      assert w == w[..k] + [w[k]];
    }
  }

  lemma ProductDifference(p: Word, d: seq<bool>, q: seq<bool>, s: Word, q': seq<bool>, s': Word)
    requires Divides(p, d, q, s) && Divides(p, d, q', s')
    ensures |q| == |q'| && Product(p, Xor(q, q')) == Zeros(|q|) + Xor(Rev(s), Rev(s'))
  {
    ProductLinear(p, q, q');
    var x, y := Product(p, Xor(q, q')), Zeros(|q|) + Xor(Rev(s), Rev(s'));
    forall i | 0 <= i < |x| ensures x[i] == y[i] {
      assert d[i] == (Product(p, q)[i] != (Zeros(|q|) + Rev(s))[i]);
      assert d[i] == (Product(p, q')[i] != (Zeros(|q'|) + Rev(s'))[i]);
    }
  }

  /** Quotient and remainder are unique, so `Divides` determines the CRC. */
  lemma DivisionUnique(p: Word, d: seq<bool>, q: seq<bool>, s: Word, q': seq<bool>, s': Word)
    requires |p| > 0 && Divides(p, d, q, s) && Divides(p, d, q', s')
    ensures q == q' && s == s'
  {
    ProductDifference(p, d, q, s, q', s');
    var w := Xor(q, q');
    ProductKernel(p, w);
    XorIsZero(q, q');
    var t := Xor(Rev(s), Rev(s'));
    forall i | 0 <= i < |p| ensures !t[i] {
      assert !Product(p, w)[|q| + i];
    }
    XorIsZero(Rev(s), Rev(s'));
    RevRev(s);
    RevRev(s');
  }

  /** The register after a message is the remainder of dividing it, and nothing else is. */
  lemma FeedIsTheRemainder(p: Word, r: Word, bits: seq<bool>, s: Word)
    requires |p| == |r| > 0
    ensures (exists q :: Divides(p, Dividend(r, bits), q, s)) <==> s == Feed(p, r, bits)
  {
    FeedDivides(p, r, bits);
    forall q | Divides(p, Dividend(r, bits), q, s) ensures s == Feed(p, r, bits) {
      DivisionUnique(p, Dividend(r, bits), q, s, Quotient(p, r, bits), Feed(p, r, bits));
    }
  }
}
