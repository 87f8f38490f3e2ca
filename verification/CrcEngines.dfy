/** The bit-at-a-time computer crc_basic and the lookup table of the byte-at-a-time ones. Registers
    are words of some width of which only the low `bits` bits carry the remainder; what the others
    hold is never masked away until a value leaves the computer. */
module CrcEngines {
  import opened Gf2
  import opened CrcDivision

  // ----- words and the remainders they hold -----

  lemma TestBit(w: Word, k: nat)
    requires k < |w|
    ensures And(w, Bit(|w|, k)) != Zeros(|w|) <==> w[k]
  {
    if w[k] {
      assert And(w, Bit(|w|, k))[k] && !Zeros(|w|)[k];
    } else {
      assert And(w, Bit(|w|, k)) == Zeros(|w|);
    }
  }

  lemma LowXor(a: Word, b: Word, n: nat)
    requires |a| == |b| && n <= |a|
    ensures Xor(a, b)[..n] == Xor(a[..n], b[..n])
  {
  }

  lemma LowShl(a: Word, k: nat, n: nat)
    requires n <= |a|
    ensures Shl(a, k)[..n] == Shl(a[..n], k)
  {
  }

  lemma LowWiden(r: Word, width: nat, w: Word)
    requires |r| <= width == |w|
    requires w[..|r|] == r && forall i :: |r| <= i < width ==> !w[i]
    ensures w == Widen(r, width)
  {
    forall i | 0 <= i < width ensures w[i] == Widen(r, width)[i] {
      if i < |r| { assert w[..|r|][i] == r[i] == Widen(r, width)[..|r|][i]; }
    }
  }

  lemma MaskLow(w: Word, n: nat)
    requires n <= |w|
    ensures And(w, LowMask(|w|, n)) == Widen(w[..n], |w|)
  {
    assert And(w, LowMask(|w|, n))[..n] == w[..n];
    LowWiden(w[..n], |w|, And(w, LowMask(|w|, n)));
  }

  /** The register after one conditional subtraction of the divisor, on whole words. */
  function WordStep(rem: Word, poly: Word, n: nat, bit: bool): (w: Word)
    requires 0 < n <= |rem| == |poly|
    ensures |w| == |rem|
  {
    var compared := Xor(rem, if bit then Bit(|rem|, n - 1) else Zeros(|rem|));
    if compared[n - 1] then Xor(Shl(compared, 1), poly) else Shl(compared, 1)
  }

  lemma ComparedLow(rem: Word, n: nat, bit: bool)
    requires 0 < n <= |rem|
    ensures var compared := Xor(rem, if bit then Bit(|rem|, n - 1) else Zeros(|rem|));
            Shl(compared, 1)[..n] == Shl(rem[..n], 1) && compared[n - 1] == (rem[n - 1] != bit)
  {
    var compared := Xor(rem, if bit then Bit(|rem|, n - 1) else Zeros(|rem|));
    forall i | 0 <= i < n ensures Shl(compared, 1)[..n][i] == Shl(rem[..n], 1)[i] {
      if i > 0 { assert compared[i - 1] == rem[i - 1]; }
    }
  }

  /** The low n bits of the word step are the division step on n bits. */
  lemma WordStepLow(rem: Word, poly: Word, n: nat, bit: bool)
    requires 0 < n <= |rem| == |poly|
    ensures WordStep(rem, poly, n, bit)[..n] == Step(poly[..n], rem[..n], bit)
  {
    var compared := Xor(rem, if bit then Bit(|rem|, n - 1) else Zeros(|rem|));
    ComparedLow(rem, n, bit);
    LowXor(Shl(compared, 1), poly, n);
  }

  lemma WordStepIs(rem: Word, poly: Word, n: nat, bit: bool)
    requires 0 < n <= |rem| == |poly|
    ensures var compared := Xor(rem, if bit then Bit(|rem|, n - 1) else Zeros(|rem|));
            var pushed := Shl(compared, 1);
            WordStep(rem, poly, n, bit) == if And(compared, Bit(|rem|, n - 1)) != Zeros(|rem|) then Xor(pushed, poly) else pushed
  {
    TestBit(Xor(rem, if bit then Bit(|rem|, n - 1) else Zeros(|rem|)), n - 1);
  }

  lemma WordStepBits(rem: Word, poly: Word, n: nat, bit: bool)
    requires 0 < n <= |rem| == |poly|
    ensures forall i :: 0 <= i < n ==>
      WordStep(rem, poly, n, bit)[i] == ((i > 0 && rem[i - 1]) != ((rem[n - 1] != bit) && poly[i]))
  {
    hide Step, WordStep;
    var w := WordStep(rem, poly, n, bit);
    WordStepLow(rem, poly, n, bit);
    forall i | 0 <= i < n ensures w[i] == ((i > 0 && rem[i - 1]) != ((rem[n - 1] != bit) && poly[i])) {
      StepAt(poly[..n], rem[..n], bit, i);
      assert w[i] == w[..n][i];
    }
  }

  // ----- reflection -----

  /** The word whose low n bits are those of x in reverse; the rest are zero. */
  function Reflected(x: Word, n: nat): (w: Word)
    requires n <= |x|
    ensures |w| == |x|
  {
    Widen(Rev(x[..n]), |x|)
  }

  lemma ReflectedAt(x: Word, n: nat, i: nat)
    requires n <= |x| && i < |x|
    ensures Reflected(x, n)[i] == (i < n && x[n - 1 - i])
  {
    if i < n { assert Reflected(x, n)[i] == Reflected(x, n)[..n][i]; }
  }

  /** The i lowest bits of x have been placed, from bit n - 1 of w downwards. */
  ghost predicate PartlyReflected(w: Word, x: Word, n: nat, i: nat)
    requires i <= n <= |x|
  {
    |w| == |x| && forall j :: 0 <= j < |x| ==> w[j] == (n - i <= j < n && x[n - 1 - j])
  }

  lemma ReflectStep(w: Word, x: Word, n: nat, i: nat)
    requires i < n <= |x| && PartlyReflected(w, x, n, i)
    ensures PartlyReflected(if x[i] then Or(w, Bit(|x|, n - 1 - i)) else w, x, n, i + 1)
  {
  }

  lemma ReflectDone(w: Word, x: Word, n: nat)
    requires n <= |x| && PartlyReflected(w, x, n, n)
    ensures w == Reflected(x, n)
  {
    forall i | 0 <= i < |x| ensures w[i] == Reflected(x, n)[i] {
      ReflectedAt(x, n, i);
    }
  }

  lemma ShrNext(x: Word, i: nat)
    requires i < |x|
    ensures Shr(x, i)[0] == x[i] && Shr(Shr(x, i), 1) == Shr(x, i + 1)
  {
  }

  /** `reflector<Bits>::reflect` */
  method Reflect(x: Word, n: nat) returns (reflection: Word)
    requires n <= |x|
    ensures reflection == Reflected(x, n)
    ensures forall i :: 0 <= i < |x| ==> reflection[i] == (i < n && x[n - 1 - i])
  {
    hide Reflected;
    var width := |x|;
    reflection := Zeros(width);
    var rest := x;
    assert rest == Shr(x, 0);
    for i := 0 to n
      invariant |rest| == width && rest == Shr(x, i)
      invariant PartlyReflected(reflection, x, n, i)
    {
      TestBit(rest, 0);
      ShrNext(x, i);
      ReflectStep(reflection, x, n, i);
      if And(rest, Bit(width, 0)) != Zeros(width) {
        reflection := Or(reflection, Bit(width, n - 1 - i));
      }
      rest := Shr(rest, 1);
    }
    ReflectDone(reflection, x, n);
    forall i | 0 <= i < |x| ensures reflection[i] == (i < n && x[n - 1 - i]) {
      ReflectedAt(x, n, i);
    }
  }

  lemma TakeSnoc<T>(s: seq<T>, k: nat)
    requires k < |s|
    ensures s[..k + 1] == s[..k] + [s[k]]
  {
  }

  /** The register after the first k bits. */
  function FedTo(p: Word, r: Word, bits: seq<bool>, k: nat): (r': Word)
    requires |p| == |r| > 0 && k <= |bits|
    ensures |r'| == |r|
  {
    if k == 0 then r else Step(p, FedTo(p, r, bits, k - 1), bits[k - 1])
  }

  lemma {:induction false} FedToIsFeed(p: Word, r: Word, bits: seq<bool>, k: nat)
    requires |p| == |r| > 0 && k <= |bits|
    ensures FedTo(p, r, bits, k) == Feed(p, r, bits[..k])
  {
    if k > 0 {
      FedToIsFeed(p, r, bits, k - 1);
      FeedSnoc(p, r, bits[..k - 1], bits[k - 1]);
      TakeSnoc(bits, k - 1);
    }
  }

  lemma FedToAll(p: Word, r: Word, bits: seq<bool>)
    requires |p| == |r| > 0
    ensures FedTo(p, r, bits, |bits|) == Feed(p, r, bits)
  {
    FedToIsFeed(p, r, bits, |bits|);
    assert bits[..|bits|] == bits;
  }

  /** `bits & high_bit_mask` on a byte. */
  function HighBit(b: Byte): bool {
    And(b, Bit(8, 7)) != Zeros(8)
  }

  lemma HighBitInOrder(b: Byte, bitCount: nat, i: nat)
    requires i < bitCount <= 8
    ensures HighBit(Shl(b, 8 - (i + 1))) == Rev(b[..bitCount])[bitCount - 1 - i]
    ensures Shl(Shl(b, 8 - (i + 1)), 1) == Shl(b, 8 - i)
  {
    TestBit(Shl(b, 8 - (i + 1)), 7);
    ShlShl(b, 8 - (i + 1));
  }

  /** One bit of a checksum, from the remainder and the final value. */
  lemma ChecksumBit(r: Word, final: Word, reflectRem: bool, i: nat)
    requires |r| <= |final| && i < |final|
    ensures var c := Widen(Finish(r, final[..|r|], reflectRem), |final|);
            c[i] == (i < |r| && (if reflectRem then r[|r| - 1 - i] else r[i]) != final[i])
  {
    var low := Finish(r, final[..|r|], reflectRem);
    if i < |r| {
      FinishAt(r, final[..|r|], reflectRem, i);
      assert Widen(low, |final|)[i] == Widen(low, |final|)[..|r|][i];
    }
  }

  /** The low bits of a register in output order, xor the final value, are the finished remainder. */
  lemma FinishLow(x: Word, r: Word, final: Word, reflectRem: bool)
    requires |r| <= |x| == |final| && x[..|r|] == if reflectRem then Rev(r) else r
    ensures And(Xor(x, final), LowMask(|x|, |r|)) == Widen(Finish(r, final[..|r|], reflectRem), |x|)
  {
    LowXor(x, final, |r|);
    MaskLow(Xor(x, final), |r|);
  }

  // ----- crc_basic -----

  class CrcBasic {
    const bits: nat
    var rem: Word
    var poly: Word
    var init: Word
    var final: Word
    var rftIn: bool
    var rftOut: bool

    ghost predicate Valid()
      reads this
    {
      0 < bits <= |rem| == |poly| == |init| == |final|
    }

    constructor (bits: nat, truncatedPolynomial: Word, initialRemainder: Word, finalXorValue: Word,
                 reflectInput: bool, reflectRemainder: bool)
      requires 0 < bits <= |truncatedPolynomial| == |initialRemainder| == |finalXorValue|
      ensures Valid() && this.bits == bits
      ensures rem == init == initialRemainder && poly == truncatedPolynomial && final == finalXorValue
      ensures rftIn == reflectInput && rftOut == reflectRemainder
    {
      this.bits := bits;
      rem, init := initialRemainder, initialRemainder;
      poly, final := truncatedPolynomial, finalXorValue;
      rftIn, rftOut := reflectInput, reflectRemainder;
    }

    method GetInterimRemainder() returns (r: Word)
      requires Valid()
      ensures r == Widen(rem[..bits], |rem|)
    {
      r := And(rem, LowMask(|rem|, bits));
      LowWiden(rem[..bits], |rem|, r);
    }

    method ResetTo(newRem: Word)
      requires Valid() && |newRem| == |rem|
      modifies this`rem
      ensures Valid() && rem == newRem
    {
      rem := newRem;
    }

    method Reset()
      requires Valid()
      modifies this`rem
      ensures Valid() && rem == init
    {
      ResetTo(init);
    }

    method ProcessBit(bit: bool)
      requires Valid()
      modifies this`rem
      ensures Valid() && |rem| == old(|rem|)
      ensures rem[..bits] == Step(poly[..bits], old(rem[..bits]), bit)
      ensures forall i :: 0 <= i < bits ==>
        rem[i] == ((i > 0 && old(rem[i - 1])) != ((old(rem[bits - 1]) != bit) && poly[i]))
    {
      ghost var w := rem;
      WordStepLow(w, poly, bits, bit);
      WordStepBits(w, poly, bits, bit);
      WordStepIs(w, poly, bits, bit);
      hide *;
      var highBitMask := Bit(|rem|, bits - 1);
      rem := Xor(rem, if bit then highBitMask else Zeros(|rem|));
      var doPolyDiv := And(rem, highBitMask) != Zeros(|rem|);
      rem := Shl(rem, 1);
      if doPolyDiv {
        rem := Xor(rem, poly);
      }
      assert rem == WordStep(w, poly, bits, bit);
    }

    /** Feeds the low bitCount bits of a byte, the highest of them first. */
    method ProcessBits(bitsOfByte: Byte, bitCount: nat)
      requires Valid() && bitCount <= 8
      modifies this`rem
      ensures Valid() && |rem| == old(|rem|)
      ensures rem[..bits] == Feed(poly[..bits], old(rem[..bits]), Rev(bitsOfByte[..bitCount]))
    {
      hide Shl, Rev, HighBit, Step;
      var b: Byte := Shl(bitsOfByte, 8 - bitCount);
      ghost var order := Rev(bitsOfByte[..bitCount]);
      ghost var start := rem[..bits];
      for i := bitCount downto 0
        invariant Valid() && |rem| == old(|rem|)
        invariant b == Shl(bitsOfByte, 8 - i)
        invariant rem[..bits] == FedTo(poly[..bits], start, order, bitCount - i)
      {
        HighBitInOrder(bitsOfByte, bitCount, i);
        ProcessBit(HighBit(b));
        b := Shl(b, 1);
      }
      FedToAll(poly[..bits], start, order);
    }

    method ProcessByte(byte: Byte)
      requires Valid()
      modifies this`rem
      ensures Valid() && |rem| == old(|rem|)
      ensures rem[..bits] == Feed(poly[..bits], old(rem[..bits]), ByteBits(byte, rftIn))
    {
      var b := byte;
      if rftIn {
        b := Reflect(byte, 8);
        assert byte[..8] == byte;
        assert b == Rev(byte);
        RevRev(byte);
      }
      ProcessBits(b, 8);
      assert b[..8] == b;
    }

    /** Whatever was fed before, a block continues the same division. */
    method ProcessBlock(block: seq<Byte>)
      requires Valid()
      modifies this`rem
      ensures Valid() && |rem| == old(|rem|)
      ensures rem[..bits] == Feed(poly[..bits], old(rem[..bits]), MessageBits(block, rftIn))
    {
      ghost var start := rem[..bits];
      for p := 0 to |block|
        invariant Valid() && |rem| == old(|rem|)
        invariant rem[..bits] == Feed(poly[..bits], start, MessageBits(block[..p], rftIn))
      {
        ProcessByte(block[p]);
        MessageBitsSnoc(block, p, rftIn);
        FeedConcat(poly[..bits], start, MessageBits(block[..p], rftIn), ByteBits(block[p], rftIn));
      }
      assert block[..|block|] == block;
    }

    method GetChecksum() returns (c: Word)
      requires Valid()
      ensures c == Widen(Finish(rem[..bits], final[..bits], rftOut), |rem|)
      ensures forall i :: 0 <= i < |c| ==>
        c[i] == (i < bits && (if rftOut then rem[bits - 1 - i] else rem[i]) != final[i])
    {
      hide Finish, Rev;
      var r := rem;
      if rftOut {
        r := Reflect(rem, bits);
      }
      c := And(Xor(r, final), LowMask(|rem|, bits));
      FinishLow(r, rem[..bits], final, rftOut);
      forall i | 0 <= i < |c|
        ensures c[i] == (i < bits && (if rftOut then rem[bits - 1 - i] else rem[i]) != final[i])
      {
        ChecksumBit(rem[..bits], final, rftOut, i);
      }
    }
  }

  // ----- the lookup table -----

  /** What slot k of a table holds: the remainder of the byte k alone. */
  function TableEntry(p: Word, reflect: bool, k: nat): (r: Word)
    requires |p| > 0
    ensures |r| == |p|
  {
    var rem := Feed(p, Zeros(|p|), ByteBits(FromNat(8, k), reflect));
    if reflect then Rev(rem) else rem
  }

  /** The slot the table builder fills for a dividend. */
  function Slot(reflect: bool, dividend: nat): (k: nat)
    requires dividend < 256
    ensures k < 256
  {
    var b: Byte := FromNat(8, dividend);
    ByteIndex(if reflect then Rev(b) else b);
    ToNat(if reflect then Rev(b) else b)
  }

  /** Slots and dividends are in one-to-one correspondence: byte reflection is an involution. */
  lemma SlotInvolution(reflect: bool, dividend: nat)
    requires dividend < 256
    ensures Slot(reflect, Slot(reflect, dividend)) == dividend
    ensures FromNat(8, Slot(reflect, dividend)) == if reflect then Rev(FromNat(8, dividend)) else FromNat(8, dividend)
  {
    var b: Byte := FromNat(8, dividend);
    ByteIndex(if reflect then Rev(b) else b);
    IndexByte(dividend);
    RevRev(b);
  }

  lemma SlotsDistinct(reflect: bool, a: nat, b: nat)
    requires a < 256 && b < 256
    ensures Slot(reflect, a) == Slot(reflect, b) <==> a == b
  {
    SlotInvolution(reflect, a);
    SlotInvolution(reflect, b);
  }

  lemma SlotEntry(p: Word, reflect: bool, dividend: nat)
    requires |p| > 0 && dividend < 256
    ensures var rem := Feed(p, Zeros(|p|), Rev(FromNat(8, dividend)));
            TableEntry(p, reflect, Slot(reflect, dividend)) == (if reflect then Rev(rem) else rem)
  {
    SlotInvolution(reflect, dividend);
  }

  /** A word stores a table entry in its low bits; a reflected table keeps the others zero,
      because right shifts will bring them down. */
  ghost predicate Stores(w: Word, entry: Word, reflect: bool, width: nat) {
    |w| == width >= |entry| && w[..|entry|] == entry
    && (reflect ==> forall i :: |entry| <= i < width ==> !w[i])
  }

  lemma RowStored(p: Word, reflect: bool, dividend: nat, w: Word)
    requires 0 < |p| <= |w| && dividend < 256
    requires w[..|p|] == Feed(p, Zeros(|p|), Rev(FromNat(8, dividend)))
    ensures var b: Byte := FromNat(8, dividend);
            ToNat(if reflect then Reflected(b, 8) else b) == Slot(reflect, dividend)
    ensures Stores(if reflect then Reflected(w, |p|) else w,
                   TableEntry(p, reflect, Slot(reflect, dividend)), reflect, |w|)
  {
    hide TableEntry, Feed, ToNat, FromNat;
    var b: Byte := FromNat(8, dividend);
    assert b[..8] == b;
    assert Reflected(b, 8) == Rev(b);
    SlotEntry(p, reflect, dividend);
  }

  class CrcTable {
    const bits: nat
    const truncPoly: Word
    const reflect: bool
    const slots: array<Word>
    var didInit: bool

    ghost predicate Valid()
      reads this, slots
    {
      0 < bits <= |truncPoly| && 8 <= |truncPoly| && slots.Length == 256 && (didInit ==> forall k :: 0 <= k < 256 ==> Filled(k))
    }

    ghost predicate Ready()
      reads this, slots
    {
      Valid() && didInit
    }

    /** Slot k holds its entry. */
    ghost predicate Filled(k: nat)
      requires 0 < bits <= |truncPoly| && k < slots.Length
      reads slots
    {
      Stores(slots[k], TableEntry(truncPoly[..bits], reflect, k), reflect, |truncPoly|)
    }

    constructor (bits: nat, truncPoly: Word, reflect: bool)
      requires 0 < bits <= |truncPoly| && 8 <= |truncPoly|
      ensures Valid() && !didInit && fresh(slots)
      ensures this.bits == bits && this.truncPoly == truncPoly && this.reflect == reflect
    {
      this.bits, this.truncPoly, this.reflect := bits, truncPoly, reflect;
      slots := new Word[256](_ => Zeros(|truncPoly|));
      didInit := false;
    }

    /** The remainder of a single byte, highest bit first, starting from zero. */
    method DivideByte(dividend: Byte) returns (remainder: Word)
      requires 0 < bits <= |truncPoly|
      ensures |remainder| == |truncPoly|
      ensures remainder[..bits] == Feed(truncPoly[..bits], Zeros(bits), Rev(dividend))
    {
      remainder := Zeros(|truncPoly|);
      var mask := Bit(8, 7);
      ghost var k := 0;
      DivideByteStart(truncPoly, bits, dividend);
      while mask != Zeros(8)
        invariant 0 <= k <= 8 && mask == MaskAt(k)
        invariant DividedUpTo(remainder, truncPoly, bits, dividend, k)
        decreases 8 - k
      {
        MaskShift(k);
        DivideByteStep(remainder, truncPoly, bits, dividend, k);
        TestBit(dividend, 7 - k);
        remainder := TableStep(remainder, And(dividend, mask) != Zeros(8));
        mask := Shr(mask, 1);
        k := k + 1;
      }
      MaskShift(k);
      FedToAll(truncPoly[..bits], Zeros(bits), Rev(dividend));
    }

    method TableStep(before: Word, bit: bool) returns (remainder: Word)
      requires 0 < bits <= |truncPoly| == |before|
      ensures remainder == WordStep(before, truncPoly, bits, bit)
    {
      var fastHiBit := Bit(|truncPoly|, bits - 1);
      remainder := before;
      XorZero(before);
      if bit {
        remainder := Xor(remainder, fastHiBit);
      }
      TestBit(remainder, bits - 1);
      if And(remainder, fastHiBit) != Zeros(|truncPoly|) {
        remainder := Shl(remainder, 1);
        remainder := Xor(remainder, truncPoly);
      } else {
        remainder := Shl(remainder, 1);
      }
    }

    /** The slot of a dividend and the word that belongs there. */
    method TableRow(dividend: nat) returns (slot: Byte, remainder: Word)
      requires Valid() && dividend < 256
      ensures ToNat(slot) == Slot(reflect, dividend)
      ensures Stores(remainder, TableEntry(truncPoly[..bits], reflect, Slot(reflect, dividend)), reflect, |truncPoly|)
    {
      hide Slot, TableEntry, Stores, FromNat, ToNat, Feed, Rev, Reflected, Zeros;
      var b: Byte := FromNat(8, dividend);
      remainder := DivideByte(b);
      slot := b;
      RowStored(truncPoly[..bits], reflect, dividend, remainder);
      if reflect {
        slot := Reflect(b, 8);
        remainder := Reflect(remainder, bits);
      }
    }

    /** What a filled table tells of one slot. */
    lemma EntryAt(k: nat)
      requires Ready() && k < 256
      ensures Stores(slots[k], TableEntry(truncPoly[..bits], reflect, k), reflect, |truncPoly|)
    {
      assert Filled(k);
    }

    /** The bits of a filled table. */
    lemma SlotBits()
      requires Ready()
      ensures forall k :: 0 <= k < 256 ==> |slots[k]| == |truncPoly|
      ensures forall k, i :: 0 <= k < 256 && 0 <= i < bits ==>
        slots[k][i] == Feed(truncPoly[..bits], Zeros(bits), ByteBits(FromNat(8, k), reflect))[if reflect then bits - 1 - i else i]
      ensures forall k, i :: reflect && 0 <= k < 256 && bits <= i < |truncPoly| ==> !slots[k][i]
    {
      hide Feed, ByteBits, FromNat;
      forall k | 0 <= k < 256 ensures Stores(slots[k], TableEntry(truncPoly[..bits], reflect, k), reflect, |truncPoly|) {
        EntryAt(k);
      }
      forall k, i | 0 <= k < 256 && 0 <= i < bits
        ensures slots[k][i] == Feed(truncPoly[..bits], Zeros(bits), ByteBits(FromNat(8, k), reflect))[if reflect then bits - 1 - i else i]
      {
        assert slots[k][i] == slots[k][..bits][i];
      }
    }

    /** Stores the entry of one dividend in its slot and leaves the other slots alone. */
    method FillSlot(dividend: nat)
      requires Valid() && !didInit && dividend < 256
      modifies slots
      ensures Filled(Slot(reflect, dividend))
      ensures forall k :: 0 <= k < 256 && k != Slot(reflect, dividend) ==> slots[k] == old(slots[k])
      ensures forall k :: 0 <= k < 256 && old(Filled(k)) ==> Filled(k)
    {
      hide Stores, TableEntry, Slot;
      var slot, remainder := TableRow(dividend);
      slots[ToNat(slot)] := remainder;
    }

    /** Visits every dividend once, until the counter wraps around; each writes a slot of its own. */
    method FillSlots()
      requires Valid() && !didInit
      modifies slots
      ensures forall k :: 0 <= k < 256 ==> Filled(k)
    {
      hide Slot, Filled;
      var dividend := 0;
      ghost var written: set<nat> := {};
      ghost var count := 0;
      var more := true;
      while more
        invariant if more then dividend == count < 256 else count == 256
        invariant forall d :: 0 <= d < count ==> Slot(reflect, d) in written
        invariant forall k :: k in written ==> k < 256 && Filled(k) && Slot(reflect, k) < count
        decreases 256 - count
      {
        ghost var k := Slot(reflect, dividend);
        SlotInvolution(reflect, dividend);
        assert k !in written;
        FillSlot(dividend);
        written := written + {k};
        count := count + 1;
        dividend := (dividend + 1) % 256;
        more := dividend != 0;
      }
      forall k | 0 <= k < 256 ensures Filled(k) {
        SlotInvolution(reflect, k);
        assert Slot(reflect, Slot(reflect, k)) in written;
      }
    }

    /** Fills the table on the first call and leaves it alone afterwards. */
    method InitTable()
      requires Valid()
      modifies this`didInit, slots
      ensures Ready()
      ensures forall k :: 0 <= k < 256 ==> |slots[k]| == |truncPoly|
      ensures forall k, i :: 0 <= k < 256 && 0 <= i < bits ==>
        slots[k][i] == Feed(truncPoly[..bits], Zeros(bits), ByteBits(FromNat(8, k), reflect))[if reflect then bits - 1 - i else i]
      ensures forall k, i :: reflect && 0 <= k < 256 && bits <= i < |truncPoly| ==> !slots[k][i]
      ensures old(didInit) ==> slots[..] == old(slots[..])
    {
      hide Feed, ByteBits, FromNat;
      if didInit {
        SlotBits();
        return;
      }
      FillSlots();
      didInit := true;
      SlotBits();
    }

  }

  /** The mask after k right shifts of the byte's highest bit. */
  function MaskAt(k: nat): (m: Byte) {
    if k < 8 then Bit(8, 7 - k) else Zeros(8)
  }

  lemma MaskShift(k: nat)
    ensures Shr(MaskAt(k), 1) == MaskAt(k + 1)
    ensures MaskAt(k) != Zeros(8) <==> k < 8
  {
    if k < 8 { assert MaskAt(k)[7 - k] && !Zeros(8)[7 - k]; }
  }

  /** The register has taken in the k highest bits of the dividend. */
  ghost predicate DividedUpTo(rem: Word, poly: Word, n: nat, dividend: Byte, k: nat)
    requires 0 < n <= |poly| && k <= 8
  {
    |rem| == |poly| && rem[..n] == FedTo(poly[..n], Zeros(n), Rev(dividend), k)
  }

  lemma DivideByteStart(poly: Word, n: nat, dividend: Byte)
    requires 0 < n <= |poly|
    ensures DividedUpTo(Zeros(|poly|), poly, n, dividend, 0)
  {
    assert Zeros(|poly|)[..n] == Zeros(n);
  }

  lemma DivideByteStep(rem: Word, poly: Word, n: nat, dividend: Byte, k: nat)
    requires 0 < n <= |poly| && k < 8 && DividedUpTo(rem, poly, n, dividend, k)
    ensures DividedUpTo(WordStep(rem, poly, n, dividend[7 - k]), poly, n, dividend, k + 1)
  {
    hide Step, Xor, Shl, Zeros, WordStep;
    assert Rev(dividend)[k] == dividend[7 - k];
    WordStepLow(rem, poly, n, dividend[7 - k]);
  }
}
