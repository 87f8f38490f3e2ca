/** Bit-at-a-time division by x^n + p(x), the meaning every CRC engine is proved against: the
    algebra of one step, the table identity, whole messages, and the steps of the augmented form. */
module CrcDivision {
  import opened Gf2

  /** One division step on an n-bit remainder r with truncated divisor p. */
  function Step(p: Word, r: Word, bit: bool): (r': Word)
    requires |p| == |r| > 0
    ensures |r'| == |r|
  {
    if r[|r| - 1] != bit then Xor(Shl(r, 1), p) else Shl(r, 1)
  }

  /** One bit of a division step. */
  lemma StepAt(p: Word, r: Word, bit: bool, i: nat)
    requires i < |p| == |r|
    ensures Step(p, r, bit)[i] == ((i > 0 && r[i - 1]) != ((r[|r| - 1] != bit) && p[i]))
  {
  }

  /** Feeds bits, first one first. */
  function Feed(p: Word, r: Word, bits: seq<bool>): (r': Word)
    requires |p| == |r| > 0
    ensures |r'| == |r|
    decreases |bits|
  {
    if bits == [] then r else Feed(p, Step(p, r, bits[0]), bits[1..])
  }

  /** The register shifted up, the next dividend bit entering at the bottom. */
  function AugShift(r: Word, bit: bool): (s: Word)
    requires |r| > 0
    ensures |s| == |r|
  {
    Xor(Shl(r, 1), if bit then Bit(|r|, 0) else Zeros(|r|))
  }

  /** One step of the augmented form. */
  function AugStep(p: Word, r: Word, bit: bool): (r': Word)
    requires |p| == |r| > 0
    ensures |r'| == |r|
  {
    if r[|r| - 1] then Xor(AugShift(r, bit), p) else AugShift(r, bit)
  }

  function AugFeed(p: Word, r: Word, bits: seq<bool>): (r': Word)
    requires |p| == |r| > 0
    ensures |r'| == |r|
    decreases |bits|
  {
    if bits == [] then r else AugFeed(p, AugStep(p, r, bits[0]), bits[1..])
  }

  // ----- linearity -----

  lemma XorSelf(a: Word)
    ensures Xor(a, a) == Zeros(|a|)
  {
  }

  lemma XorZero(a: Word)
    ensures Xor(a, Zeros(|a|)) == a && Xor(Zeros(|a|), a) == a
  {
    assert forall i :: 0 <= i < |a| ==> Xor(a, Zeros(|a|))[i] == a[i];
    assert forall i :: 0 <= i < |a| ==> Xor(Zeros(|a|), a)[i] == a[i];
  }

  lemma StepLinear(p: Word, r: Word, s: Word, a: bool, b: bool)
    requires |p| == |r| == |s| > 0
    ensures Step(p, Xor(r, s), a != b) == Xor(Step(p, r, a), Step(p, s, b))
  {
    var left, right := Step(p, Xor(r, s), a != b), Xor(Step(p, r, a), Step(p, s, b));
    assert forall i :: 0 <= i < |p| ==> left[i] == right[i];
  }

  lemma {:induction false} FeedLinear(p: Word, r: Word, s: Word, a: seq<bool>, b: seq<bool>)
    requires |p| == |r| == |s| > 0 && |a| == |b|
    ensures Feed(p, Xor(r, s), Xor(a, b)) == Xor(Feed(p, r, a), Feed(p, s, b))
    decreases |a|
  {
    if a != [] {
      StepLinear(p, r, s, a[0], b[0]);
      assert Xor(a, b)[1..] == Xor(a[1..], b[1..]);
      FeedLinear(p, Step(p, r, a[0]), Step(p, s, b[0]), a[1..], b[1..]);
    }
  }

  lemma {:induction false} FeedConcat(p: Word, r: Word, a: seq<bool>, b: seq<bool>)
    requires |p| == |r| > 0
    ensures Feed(p, r, a + b) == Feed(p, Feed(p, r, a), b)
    decreases |a|
  {
    if a == [] {
      assert a + b == b;
    } else {
      assert (a + b)[1..] == a[1..] + b;
      FeedConcat(p, Step(p, r, a[0]), a[1..], b);
    }
  }

  lemma FeedOne(p: Word, r: Word, bit: bool)
    requires |p| == |r| > 0
    ensures Feed(p, r, [bit]) == Step(p, r, bit)
  {
    assert [bit][1..] == [];
  }

  lemma FeedSnoc(p: Word, r: Word, bits: seq<bool>, bit: bool)
    requires |p| == |r| > 0
    ensures Feed(p, r, bits + [bit]) == Step(p, Feed(p, r, bits), bit)
  {
    FeedConcat(p, r, bits, [bit]);
    FeedOne(p, Feed(p, r, bits), bit);
  }

  lemma {:induction false} FeedZeros(p: Word, k: nat)
    requires |p| > 0
    ensures Feed(p, Zeros(|p|), Zeros(k)) == Zeros(|p|)
  {
    if k > 0 {
      assert Zeros(k)[1..] == Zeros(k - 1);
      assert Shl(Zeros(|p|), 1) == Zeros(|p|);
      FeedZeros(p, k - 1);
    }
  }

  // ----- the table identity -----

  /** The k bits a remainder contributes to the next k division steps, in processing order:
      its k highest bits, highest first, padded with zeros when it is shorter. */
  function Top(r: Word, k: nat): (t: seq<bool>)
    ensures |t| == k && forall i :: 0 <= i < k ==> t[i] == (i < |r| && r[|r| - 1 - i])
  {
    seq(k, i requires 0 <= i < k => i < |r| && r[|r| - 1 - i])
  }

  lemma ShlShl(r: Word, k: nat)
    ensures Shl(Shl(r, k), 1) == Shl(r, k + 1)
  {
  }

  lemma StepShl(p: Word, r: Word, k: nat)
    requires |p| == |r| > 0
    ensures Step(p, Shl(r, k), k < |r| && r[|r| - 1 - k]) == Shl(r, k + 1)
  {
    assert Shl(r, k)[|r| - 1] == (k < |r| && r[|r| - 1 - k]);
    ShlShl(r, k);
  }

  lemma FeedTopStep(p: Word, r: Word, acc: Word, k: nat)
    requires |p| == |r| == |acc| > 0
    ensures Step(p, Xor(acc, Shl(r, k)), false)
         == Xor(Step(p, acc, k < |r| && r[|r| - 1 - k]), Shl(r, k + 1))
  {
    var t := k < |r| && r[|r| - 1 - k];
    StepLinear(p, acc, Shl(r, k), t, t);
    StepShl(p, r, k);
  }

  lemma ZerosSnoc(k: nat)
    ensures Zeros(k + 1) == Zeros(k) + [false]
  {
  }

  lemma TopSnoc(r: Word, k: nat)
    ensures Top(r, k + 1) == Top(r, k) + [k < |r| && r[|r| - 1 - k]]
  {
  }

  lemma FeedTopSnoc(p: Word, r: Word, k: nat)
    requires |p| == |r| > 0
    requires Feed(p, r, Zeros(k)) == Xor(Feed(p, Zeros(|p|), Top(r, k)), Shl(r, k))
    ensures Feed(p, r, Zeros(k + 1)) == Xor(Feed(p, Zeros(|p|), Top(r, k + 1)), Shl(r, k + 1))
  {
    ZerosSnoc(k);
    FeedSnoc(p, r, Zeros(k), false);
    TopSnoc(r, k);
    FeedSnoc(p, Zeros(|p|), Top(r, k), k < |r| && r[|r| - 1 - k]);
    FeedTopStep(p, r, Feed(p, Zeros(|p|), Top(r, k)), k);
  }

  lemma {:induction false} FeedTop(p: Word, r: Word, k: nat)
    requires |p| == |r| > 0
    ensures Feed(p, r, Zeros(k)) == Xor(Feed(p, Zeros(|p|), Top(r, k)), Shl(r, k))
  {
    if k == 0 {
      assert Shl(r, 0) == r;
      XorZero(r);
    } else {
      FeedTop(p, r, k - 1);
      FeedTopSnoc(p, r, k - 1);
    }
  }

  lemma XorSwap(a: Word, b: Word, c: Word)
    requires |a| == |b| == |c|
    ensures Xor(Xor(a, b), c) == Xor(b, Xor(c, a))
  {
  }

  /** Feeding a block equals one lookup: divide (block xor top of the remainder) from zero,
      and add the remainder shifted out by the length of the block. */
  lemma BlockStep(p: Word, r: Word, block: seq<bool>)
    requires |p| == |r| > 0
    ensures Feed(p, r, block)
         == Xor(Shl(r, |block|), Feed(p, Zeros(|p|), Xor(block, Top(r, |block|))))
  {
    hide Step, Xor, Zeros, Shl, Top;
    var zn, zk := Zeros(|r|), Zeros(|block|);
    assert Feed(p, r, block) == Xor(Feed(p, r, zk), Feed(p, zn, block)) by {
      XorZero(r);
      XorZero(block);
      FeedLinear(p, r, zn, zk, block);
    }
    FeedTop(p, r, |block|);
    assert Feed(p, zn, Xor(block, Top(r, |block|))) == Xor(Feed(p, zn, block), Feed(p, zn, Top(r, |block|))) by {
      XorZero(zn);
      FeedLinear(p, zn, zn, block, Top(r, |block|));
    }
    XorSwap(Feed(p, zn, Top(r, |block|)), Shl(r, |block|), Feed(p, zn, block));
  }

  // ----- whole messages -----

  /** The bits of one byte in the order the division sees them. */
  function ByteBits(b: Byte, reflectIn: bool): (bits: seq<bool>)
    ensures |bits| == 8
  {
    if reflectIn then b else Rev(b)
  }

  function MessageBits(msg: seq<Byte>, reflectIn: bool): (bits: seq<bool>)
    ensures |bits| == 8 * |msg|
  {
    if msg == [] then [] else ByteBits(msg[0], reflectIn) + MessageBits(msg[1..], reflectIn)
  }

  lemma MessageBitsOne(b: Byte, reflectIn: bool)
    ensures MessageBits([b], reflectIn) == ByteBits(b, reflectIn)
  {
    assert [b][1..] == [];
  }

  lemma {:induction false} MessageBitsConcat(a: seq<Byte>, b: seq<Byte>, reflectIn: bool)
    ensures MessageBits(a + b, reflectIn) == MessageBits(a, reflectIn) + MessageBits(b, reflectIn)
  {
    if a == [] {
      assert a + b == b;
    } else {
      assert (a + b)[1..] == a[1..] + b;
      MessageBitsConcat(a[1..], b, reflectIn);
    }
  }

  lemma MessageBitsSnoc(msg: seq<Byte>, k: nat, reflectIn: bool)
    requires k < |msg|
    ensures MessageBits(msg[..k + 1], reflectIn) == MessageBits(msg[..k], reflectIn) + ByteBits(msg[k], reflectIn)
  {
    assert msg[..k + 1] == msg[..k] + [msg[k]];
    MessageBitsConcat(msg[..k], [msg[k]], reflectIn);
    MessageBitsOne(msg[k], reflectIn);
  }

  /** Bit i of byte k is the i-th of the byte in processing order when input is reflected, and the
      i-th from the end when not. */
  lemma {:induction false} MessageBitsAt(msg: seq<Byte>, reflectIn: bool, k: nat, i: nat)
    requires k < |msg| && i < 8
    ensures MessageBits(msg, reflectIn)[8 * k + i] == if reflectIn then msg[k][i] else msg[k][7 - i]
    decreases k
  {
    if k > 0 { MessageBitsAt(msg[1..], reflectIn, k - 1, i); }
  }

  /** A message may be fed in pieces. */
  lemma FeedInPieces(p: Word, r: Word, a: seq<Byte>, b: seq<Byte>, reflectIn: bool)
    requires |p| == |r| > 0
    ensures Feed(p, r, MessageBits(a + b, reflectIn))
         == Feed(p, Feed(p, r, MessageBits(a, reflectIn)), MessageBits(b, reflectIn))
  {
    MessageBitsConcat(a, b, reflectIn);
    FeedConcat(p, r, MessageBits(a, reflectIn), MessageBits(b, reflectIn));
  }

  /** What a checksum shows of a remainder. */
  function Finish(r: Word, finalXor: Word, reflectRem: bool): (c: Word)
    requires |r| == |finalXor|
    ensures |c| == |r|
  {
    Xor(if reflectRem then Rev(r) else r, finalXor)
  }

  lemma FinishAt(r: Word, finalXor: Word, reflectRem: bool, i: nat)
    requires i < |r| == |finalXor|
    ensures Finish(r, finalXor, reflectRem)[i] == ((if reflectRem then r[|r| - 1 - i] else r[i]) != finalXor[i])
  {
  }

  /** The checksum of a message: eight division steps for each byte. */
  function Checksum(p: Word, init: Word, finalXor: Word, reflectIn: bool, reflectRem: bool, msg: seq<Byte>): (c: Word)
    requires |p| == |init| == |finalXor| > 0
    ensures |c| == |p|
  {
    Finish(Feed(p, init, MessageBits(msg, reflectIn)), finalXor, reflectRem)
  }

  // ----- the augmented form -----

  lemma {:induction false} AugFeedConcat(p: Word, r: Word, a: seq<bool>, b: seq<bool>)
    requires |p| == |r| > 0
    ensures AugFeed(p, r, a + b) == AugFeed(p, AugFeed(p, r, a), b)
    decreases |a|
  {
    if a == [] {
      assert a + b == b;
    } else {
      assert (a + b)[1..] == a[1..] + b;
      AugFeedConcat(p, AugStep(p, r, a[0]), a[1..], b);
    }
  }

  /** The word whose low bits are `bits`, the last one lowest. */
  function Inject(n: nat, bits: seq<bool>): (w: Word)
    requires |bits| <= n
    ensures |w| == n && forall i :: 0 <= i < n ==> w[i] == (i < |bits| && bits[|bits| - 1 - i])
  {
    seq(n, i requires 0 <= i < n => i < |bits| && bits[|bits| - 1 - i])
  }

  lemma AugFeedSnoc(p: Word, r: Word, bits: seq<bool>, bit: bool)
    requires |p| == |r| > 0
    ensures AugFeed(p, r, bits + [bit]) == AugStep(p, AugFeed(p, r, bits), bit)
  {
    AugFeedConcat(p, r, bits, [bit]);
    assert [bit][1..] == [];
  }

  lemma ShlXor(a: Word, b: Word)
    requires |a| == |b|
    ensures Shl(Xor(a, b), 1) == Xor(Shl(a, 1), Shl(b, 1))
  {
  }

  lemma XorAssoc(a: Word, b: Word, c: Word)
    requires |a| == |b| == |c|
    ensures Xor(Xor(a, b), c) == Xor(a, Xor(b, c))
  {
  }

  lemma InjectSnoc(n: nat, bits: seq<bool>, bit: bool)
    requires |bits| < n
    ensures Inject(n, bits + [bit]) == Xor(Shl(Inject(n, bits), 1), if bit then Bit(n, 0) else Zeros(n))
  {
    var low := if bit then Bit(n, 0) else Zeros(n);
    assert forall i :: 0 <= i < n ==> low[i] == (bit && i == 0);
  }

  lemma XorExchange(a: Word, b: Word, c: Word)
    requires |a| == |b| == |c|
    ensures Xor(Xor(a, b), c) == Xor(Xor(a, c), b)
  {
  }

  /** The register shifted and joined by the new bit, before any subtraction. */
  lemma ShiftInject(s: Word, bits: seq<bool>, bit: bool)
    requires |s| > |bits|
    ensures AugShift(Xor(s, Inject(|s|, bits)), bit) == Xor(Shl(s, 1), Inject(|s|, bits + [bit]))
  {
    ShlXor(s, Inject(|s|, bits));
    XorAssoc(Shl(s, 1), Shl(Inject(|s|, bits), 1), if bit then Bit(|s|, 0) else Zeros(|s|));
    InjectSnoc(|s|, bits, bit);
  }

  lemma TopUntouched(s: Word, bits: seq<bool>)
    requires |s| > |bits|
    ensures Xor(s, Inject(|s|, bits))[|s| - 1] == s[|s| - 1]
  {
  }

  lemma AugStepAs(p: Word, r: Word, bit: bool, top: bool)
    requires |p| == |r| > 0 && r[|r| - 1] == top
    ensures AugStep(p, r, bit) == if top then Xor(AugShift(r, bit), p) else AugShift(r, bit)
  {
  }

  lemma AugStepInject(p: Word, s: Word, bits: seq<bool>, bit: bool)
    requires |p| == |s| > |bits|
    ensures AugStep(p, Xor(s, Inject(|p|, bits)), bit) == Xor(Step(p, s, false), Inject(|p|, bits + [bit]))
  {
    TopUntouched(s, bits);
    AugStepAs(p, Xor(s, Inject(|p|, bits)), bit, s[|p| - 1]);
    ShiftInject(s, bits, bit);
    XorExchange(Shl(s, 1), Inject(|p|, bits + [bit]), p);
  }

  lemma XorComm(a: Word, b: Word)
    requires |a| == |b|
    ensures Xor(a, b) == Xor(b, a)
  {
  }

  lemma AugFeedPrefixSnoc(p: Word, r: Word, bits: seq<bool>, bit: bool)
    requires |p| == |r| > |bits|
    requires AugFeed(p, r, bits) == Xor(Feed(p, r, Zeros(|bits|)), Inject(|p|, bits))
    ensures AugFeed(p, r, bits + [bit]) == Xor(Feed(p, r, Zeros(|bits| + 1)), Inject(|p|, bits + [bit]))
  {
    assert Feed(p, r, Zeros(|bits| + 1)) == Step(p, Feed(p, r, Zeros(|bits|)), false) by {
      ZerosSnoc(|bits|);
      FeedSnoc(p, r, Zeros(|bits|), false);
    }
    AugStepInject(p, Feed(p, r, Zeros(|bits|)), bits, bit);
    AugFeedSnoc(p, r, bits, bit);
  }

  /** While at most n bits enter, none of them reaches the top, so the register is the one
      fed with zeros plus the bits themselves. */
  lemma {:induction false} AugFeedPrefix(p: Word, r: Word, bits: seq<bool>)
    requires |p| == |r| > 0 && |bits| <= |p|
    ensures AugFeed(p, r, bits) == Xor(Feed(p, r, Zeros(|bits|)), Inject(|p|, bits))
    decreases |bits|
  {
    hide Step, AugStep, Xor;
    if bits == [] {
      assert Inject(|p|, bits) == Zeros(|p|);
      XorZero(r);
    } else {
      var init, last := bits[..|bits| - 1], bits[|bits| - 1];
      AugFeedPrefix(p, r, init);
      AugFeedPrefixSnoc(p, r, init, last);
      assert init + [last] == bits;
    }
  }
}
