/** The byte-at-a-time engines over the shared table: crc_optimal, the crc function template and
    augmented_crc, and their agreement with the bit-at-a-time division. */
module CrcOptimized {
  import opened Gf2
  import opened CrcDivision
  import opened CrcTheorems
  import opened CrcEngines

  // ----- crc_helper: table index and shift, on whole words -----

  /** The highest byte of an unreflected remainder, as a byte; a remainder shorter than a byte
      is aligned to the byte's highest bit. */
  function AlignMsb(rem: Word, bits: nat): (b: Byte) {
    if bits > 8 then Cast(Shr(rem, bits - 8), 8) else Cast(Shl(rem, 8 - bits), 8)
  }

  function Index(reflect: bool, bits: nat, rem: Word, x: Byte): (b: Byte) {
    Xor(x, if reflect then Cast(rem, 8) else AlignMsb(rem, bits))
  }

  function Shift(reflect: bool, rem: Word): (w: Word)
    ensures |w| == |rem|
  {
    if reflect then Shr(rem, 8) else Shl(rem, 8)
  }

  /** A register holding the remainder r: reflected registers hold it reversed, over zeros. */
  ghost predicate Holds(rem: Word, r: Word, reflect: bool, width: nat) {
    Stores(rem, if reflect then Rev(r) else r, reflect, width)
  }

  lemma AlignMsbTop(rem: Word, r: Word, width: nat)
    requires |rem| == width >= 8 && 0 < |r| <= width && rem[..|r|] == r
    ensures Rev(AlignMsb(rem, |r|)) == Top(r, 8)
  {
    var a, t, n := Rev(AlignMsb(rem, |r|)), Top(r, 8), |r|;
    forall i | 0 <= i < 8 ensures a[i] == t[i] {
      if i < n { assert rem[n - 1 - i] == rem[..n][n - 1 - i]; }
    }
  }

  lemma CastTop(rem: Word, r: Word, width: nat)
    requires Holds(rem, r, true, width) && width >= 8 && |r| > 0
    ensures Cast(rem, 8) == Top(r, 8)
  {
    var a, t, n := Cast(rem, 8), Top(r, 8), |r|;
    forall i | 0 <= i < 8 ensures a[i] == t[i] {
      if i < n { assert rem[i] == rem[..n][i] == Rev(r)[i]; }
    }
  }

  /** The table index, read in processing order, is the byte xor the remainder's highest bits. */
  lemma IndexBits(rem: Word, r: Word, x: Byte, reflect: bool, width: nat)
    requires Holds(rem, r, reflect, width) && width >= 8 && |r| > 0
    ensures ByteBits(Index(reflect, |r|, rem, x), reflect) == Xor(ByteBits(x, reflect), Top(r, 8))
  {
    if reflect {
      CastTop(rem, r, width);
    } else {
      AlignMsbTop(rem, r, width);
      RevXor(x, AlignMsb(rem, |r|));
    }
  }

  lemma ShiftHolds(rem: Word, r: Word, reflect: bool, width: nat)
    requires Holds(rem, r, reflect, width)
    ensures Holds(Shift(reflect, rem), Shl(r, 8), reflect, width)
  {
    if reflect {
      ShiftReversed(rem, r);
    } else {
      LowShl(rem, 8, |r|);
    }
  }

  lemma ShiftReversed(rem: Word, r: Word)
    requires |r| <= |rem| && rem[..|r|] == Rev(r) && forall i :: |r| <= i < |rem| ==> !rem[i]
    ensures Shr(rem, 8)[..|r|] == Rev(Shl(r, 8))
  {
    forall i | 0 <= i < |r| ensures Shr(rem, 8)[i] == Rev(Shl(r, 8))[i] {
      if i + 8 < |r| { assert rem[i + 8] == rem[..|r|][i + 8]; }
    }
  }

  lemma XorHolds(a: Word, b: Word, r: Word, s: Word, reflect: bool, width: nat)
    requires |r| == |s| && Holds(a, r, reflect, width) && Holds(b, s, reflect, width)
    ensures Holds(Xor(a, b), Xor(r, s), reflect, width)
  {
    LowXor(a, b, |r|);
    RevXor(r, s);
  }

  lemma HeldEntry(p: Word, w: Word, reflect: bool, index: Byte, width: nat)
    requires |p| > 0
    requires Stores(w, TableEntry(p, reflect, ToNat(index)), reflect, width)
    ensures Holds(w, Feed(p, Zeros(|p|), ByteBits(index, reflect)), reflect, width)
  {
    ByteIndex(index);
  }

  /** One table lookup carries a register from a remainder to the remainder eight steps on. */
  lemma LookupStep(p: Word, rem: Word, entry: Word, r: Word, x: Byte, reflect: bool, width: nat)
    requires |p| == |r| > 0 && width >= 8 && Holds(rem, r, reflect, width)
    requires Stores(entry, TableEntry(p, reflect, ToNat(Index(reflect, |r|, rem, x))), reflect, width)
    ensures Holds(Xor(Shift(reflect, rem), entry), Feed(p, r, ByteBits(x, reflect)), reflect, width)
  {
    var index := Index(reflect, |r|, rem, x);
    HeldEntry(p, entry, reflect, index, width);
    ShiftHolds(rem, r, reflect, width);
    XorHolds(Shift(reflect, rem), entry, Shl(r, 8), Feed(p, Zeros(|p|), ByteBits(index, reflect)), reflect, width);
    IndexBits(rem, r, x, reflect, width);
    BlockStep(p, r, ByteBits(x, reflect));
  }

  /** Reflecting the register when the output order differs from the register's gives the
      remainder in output order. */
  lemma OutputLow(rem: Word, r: Word, reflect: bool, reflectRem: bool, width: nat)
    requires Holds(rem, r, reflect, width)
    ensures (if reflectRem != reflect then Reflected(rem, |r|) else rem)[..|r|] == if reflectRem then Rev(r) else r
  {
    RevRev(r);
    assert Reflected(rem, |r|)[..|r|] == Rev(rem[..|r|]);
  }

  // ----- crc_optimal -----

  class CrcOptimal {
    const table: CrcTable
    const initRem: Word
    const finalXor: Word
    const reflectRem: bool
    var rem: Word

    ghost predicate Valid()
      reads this, table, table.slots
    {
      table.Ready() && |initRem| == |finalXor| == |table.truncPoly|
      && Holds(rem, Remainder(), table.reflect, |table.truncPoly|)
    }

    /** The unreflected remainder the register stands for. */
    ghost function Remainder(): (r: Word)
      reads this
    {
      var low := if table.bits <= |rem| then rem[..table.bits] else Zeros(table.bits);
      if table.reflect then Rev(low) else low
    }

    lemma RemainderAt(i: nat)
      requires i < table.bits <= |rem|
      ensures |Remainder()| == table.bits && Remainder()[i] == rem[if table.reflect then table.bits - 1 - i else i]
    {
    }

    lemma RemainderLength()
      requires Valid()
      ensures |Remainder()| == table.bits <= |rem| == |finalXor|
    {
    }

    constructor (table: CrcTable, startRem: Word, initRem: Word, finalXor: Word, reflectRem: bool)
      requires table.Valid() && |startRem| == |initRem| == |finalXor| == |table.truncPoly|
      modifies table`didInit, table.slots
      ensures Valid() && Remainder() == startRem[..table.bits]
      ensures this.table == table && this.initRem == initRem && this.finalXor == finalXor
      ensures this.reflectRem == reflectRem
      ensures old(table.didInit) ==> table.slots[..] == old(table.slots[..])
    {
      this.table, this.initRem, this.finalXor, this.reflectRem := table, initRem, finalXor, reflectRem;
      rem := startRem;
      new;
      Reset(startRem);
      table.InitTable();
    }

    method Reset(newRem: Word)
      requires |newRem| == |table.truncPoly| && 0 < table.bits <= |newRem|
      modifies this`rem
      ensures Holds(rem, Remainder(), table.reflect, |newRem|)
      ensures Remainder() == newRem[..table.bits]
    {
      rem := newRem;
      if table.reflect {
        rem := Reflect(newRem, table.bits);
        assert rem[..table.bits] == Rev(newRem[..table.bits]);
      }
      RevRev(newRem[..table.bits]);
      RevRev(rem[..table.bits]);
    }

    method GetInterimRemainder() returns (r: Word)
      requires Valid()
      ensures r == Widen(Remainder(), |rem|)
    {
      r := rem;
      if table.reflect {
        r := Reflect(rem, table.bits);
      }
      r := And(r, LowMask(|rem|, table.bits));
      LowWiden(Remainder(), |rem|, r);
    }

    method ProcessByte(byte: Byte)
      requires Valid()
      modifies this`rem
      ensures Valid() && |rem| == old(|rem|)
      ensures Remainder() == Feed(table.truncPoly[..table.bits], old(Remainder()), ByteBits(byte, table.reflect))
    {
      MessageBitsOne(byte, table.reflect);
      ProcessBlock([byte]);
    }

    /** One lookup for each byte does what eight division steps for each byte do. */
    method ProcessBlock(block: seq<Byte>)
      requires Valid()
      modifies this`rem
      ensures Valid() && |rem| == old(|rem|)
      ensures Remainder() == Feed(table.truncPoly[..table.bits], old(Remainder()), MessageBits(block, table.reflect))
    {
      hide Index, Shift, TableEntry, Step, Xor, Rev, Zeros, Shl;
      ghost var r := Remainder();
      ghost var width := |table.truncPoly|;
      for p := 0 to |block|
        invariant |r| == table.bits && Holds(rem, r, table.reflect, width)
        invariant r == Feed(table.truncPoly[..table.bits], old(Remainder()), MessageBits(block[..p], table.reflect))
      {
        var byteIndex := Index(table.reflect, table.bits, rem, block[p]);
        ByteIndex(byteIndex);
        table.EntryAt(ToNat(byteIndex));
        LookupStep(table.truncPoly[..table.bits], rem, table.slots[ToNat(byteIndex)], r, block[p], table.reflect, width);
        rem := Shift(table.reflect, rem);
        rem := Xor(rem, table.slots[ToNat(byteIndex)]);
        MessageBitsSnoc(block, p, table.reflect);
        FeedConcat(table.truncPoly[..table.bits], old(Remainder()), MessageBits(block[..p], table.reflect), ByteBits(block[p], table.reflect));
        r := Feed(table.truncPoly[..table.bits], r, ByteBits(block[p], table.reflect));
      }
      assert block[..|block|] == block;
      RevRev(r);
    }

    method GetChecksum() returns (c: Word)
      requires Valid()
      ensures c == Widen(Finish(Remainder(), finalXor[..table.bits], reflectRem), |rem|)
      ensures forall i :: 0 <= i < |c| ==>
        c[i] == (i < table.bits && (if reflectRem then Remainder()[table.bits - 1 - i] else Remainder()[i]) != finalXor[i])
    {
      hide Finish, Rev, Reflected, Remainder, Holds;
      RemainderLength();
      var r := rem;
      if reflectRem != table.reflect {
        r := Reflect(rem, table.bits);
      }
      OutputLow(rem, Remainder(), table.reflect, reflectRem, |rem|);
      FinishLow(r, Remainder(), finalXor, reflectRem);
      c := And(Xor(r, finalXor), LowMask(|rem|, table.bits));
      forall i | 0 <= i < |c|
        ensures c[i] == (i < table.bits && (if reflectRem then Remainder()[table.bits - 1 - i] else Remainder()[i]) != finalXor[i])
      {
        ChecksumBit(Remainder(), finalXor, reflectRem, i);
      }
    }
  }

  /** The `crc` function template: a fresh computer over the whole buffer. */
  method Crc(table: CrcTable, initRem: Word, finalXor: Word, reflectRem: bool, buffer: seq<Byte>) returns (c: Word)
    requires table.Valid() && |initRem| == |finalXor| == |table.truncPoly|
    modifies table`didInit, table.slots
    ensures c == Widen(Checksum(table.truncPoly[..table.bits], initRem[..table.bits], finalXor[..table.bits],
                                table.reflect, reflectRem, buffer), |table.truncPoly|)
    ensures var r := Feed(table.truncPoly[..table.bits], initRem[..table.bits], MessageBits(buffer, table.reflect));
            forall i :: 0 <= i < |c| ==>
              c[i] == (i < table.bits && (if reflectRem then r[table.bits - 1 - i] else r[i]) != finalXor[i])
  {
    var computer := new CrcOptimal(table, initRem, initRem, finalXor, reflectRem);
    computer.ProcessBlock(buffer);
    c := computer.GetChecksum();
  }

  /** Both engines, on registers of possibly different widths, give the same checksum. */
  method CompareEngines(table: CrcTable, initRem: Word, finalXor: Word, reflectRem: bool,
                        poly: Word, init: Word, final: Word, buffer: seq<Byte>)
    returns (optimal: Word, basic: Word)
    requires table.Valid() && |initRem| == |finalXor| == |table.truncPoly|
    requires table.bits <= |poly| == |init| == |final|
    requires poly[..table.bits] == table.truncPoly[..table.bits] && init[..table.bits] == initRem[..table.bits]
    requires final[..table.bits] == finalXor[..table.bits]
    modifies table`didInit, table.slots
    ensures |optimal| == |table.truncPoly| && |basic| == |poly|
    ensures optimal[..table.bits] == basic[..table.bits]
         == Checksum(poly[..table.bits], init[..table.bits], final[..table.bits], table.reflect, reflectRem, buffer)
    ensures forall i :: table.bits <= i < |optimal| ==> !optimal[i]
    ensures forall i :: table.bits <= i < |basic| ==> !basic[i]
  {
    optimal := Crc(table, initRem, finalXor, reflectRem, buffer);
    var simple := new CrcBasic(table.bits, poly, init, final, table.reflect, reflectRem);
    simple.ProcessBlock(buffer);
    basic := simple.GetChecksum();
  }

  // ----- augmented_crc -----

  lemma AugmentedLow(rem: Word, x: Byte, n: nat)
    requires 8 <= n <= |rem|
    ensures Or(Shl(rem, 8), Cast(x, |rem|))[..n] == Xor(Shl(rem[..n], 8), Inject(n, Rev(x)))
  {
  }

  /** One lookup of the augmented form is eight of its steps. */
  lemma AugmentedLookup(p: Word, rem: Word, entry: Word, x: Byte)
    requires 8 <= |p| <= |rem| == |entry|
    requires entry[..|p|] == TableEntry(p, false, ToNat(TopByte(rem, |p|)))
    ensures Xor(Or(Shl(rem, 8), Cast(x, |rem|)), entry)[..|p|] == AugFeed(p, rem[..|p|], Rev(x))
  {
    var n := |p|;
    var r, f, z := rem[..n], entry[..n], Zeros(n);
    TopByteIndex(rem, n);
    ByteIndex(TopByte(rem, n));
    AlignMsbTop(rem, r, |rem|);
    assert f == Feed(p, z, Top(r, 8));
    LowXor(Or(Shl(rem, 8), Cast(x, |rem|)), entry, n);
    AugmentedLow(rem, x, n);
    AugFeedPrefix(p, r, Rev(x));
    FeedTop(p, r, 8);
    XorSwap(f, Shl(r, 8), Inject(n, Rev(x)));
    XorAssoc(Shl(r, 8), Inject(n, Rev(x)), f);
  }

  lemma AugmentedSnoc(p: Word, r: Word, buffer: seq<Byte>, k: nat)
    requires |p| == |r| > 0 && k < |buffer|
    ensures AugFeed(p, r, MessageBits(buffer[..k + 1], false))
         == AugFeed(p, AugFeed(p, r, MessageBits(buffer[..k], false)), Rev(buffer[k]))
  {
    MessageBitsSnoc(buffer, k, false);
    AugFeedConcat(p, r, MessageBits(buffer[..k], false), Rev(buffer[k]));
  }

  /** The current top byte of the register. */
  function TopByte(rem: Word, bits: nat): (b: Byte)
    requires 8 <= bits
  {
    Cast(Shr(rem, bits - 8), 8)
  }

  lemma TopByteIndex(rem: Word, bits: nat)
    requires 8 <= bits
    ensures TopByte(rem, bits) == AlignMsb(rem, bits)
  {
    if bits == 8 {
      var x, y := Cast(Shr(rem, 0), 8), Cast(Shl(rem, 0), 8);
      assert forall i :: 0 <= i < 8 ==> x[i] == y[i];
    }
  }

  method AugmentedCrc(table: CrcTable, buffer: seq<Byte>, initialRemainder: Word) returns (c: Word)
    requires table.Valid() && !table.reflect && 8 <= table.bits && |initialRemainder| == |table.truncPoly|
    modifies table`didInit, table.slots
    ensures c == Widen(AugFeed(table.truncPoly[..table.bits], initialRemainder[..table.bits], MessageBits(buffer, false)), |table.truncPoly|)
  {
    var rem := initialRemainder;
    var width, n := |table.truncPoly|, table.bits;
    ghost var start := initialRemainder[..n];
    ghost var r := start;
    table.InitTable();
    for p := 0 to |buffer|
      invariant table.Ready() && |rem| == width && rem[..n] == r
      invariant r == AugFeed(table.truncPoly[..table.bits], start, MessageBits(buffer[..p], false))
    {
      var byteIndex := TopByte(rem, n);
      ByteIndex(byteIndex);
      table.EntryAt(ToNat(byteIndex));
      AugmentedLookup(table.truncPoly[..table.bits], rem, table.slots[ToNat(byteIndex)], buffer[p]);
      rem := Shl(rem, 8);
      rem := Or(rem, Cast(buffer[p], width));
      rem := Xor(rem, table.slots[ToNat(byteIndex)]);
      AugmentedSnoc(table.truncPoly[..table.bits], start, buffer, p);
      r := AugFeed(table.truncPoly[..table.bits], r, Rev(buffer[p]));
    }
    assert buffer[..|buffer|] == buffer;
    c := And(rem, LowMask(width, n));
    MaskLow(rem, n);
  }

  // ----- augmented messages in bytes -----

  /** A word of whole bytes, highest byte first. */
  function BigEndian(w: Word): (b: seq<Byte>)
    requires |w| % 8 == 0
    ensures |b| == |w| / 8
    decreases |w|
  {
    if w == [] then [] else [w[|w| - 8..]] + BigEndian(w[..|w| - 8])
  }

  lemma {:induction false} BigEndianBits(w: Word)
    requires |w| % 8 == 0
    ensures MessageBits(BigEndian(w), false) == Rev(w)
    decreases |w|
  {
    if w != [] {
      var hi, lo := w[|w| - 8..], w[..|w| - 8];
      BigEndianBits(lo);
      assert BigEndian(w)[1..] == BigEndian(lo);
      assert Rev(w) == Rev(hi) + Rev(lo);
    }
  }

  lemma ZeroWordFlush(p: Word)
    requires |p| > 0
    ensures Flush(p, Zeros(|p|)) == Zeros(|p|)
  {
    FeedZeros(p, |p|);
  }

  /** The CRC with no initial value, no final xor and no reflection. */
  function PlainCrc(p: Word, msg: seq<Byte>): (c: Word)
    requires |p| > 0
    ensures |c| == |p|
  {
    Checksum(p, Zeros(|p|), Zeros(|p|), false, false, msg)
  }

  lemma PlainCrcFeeds(p: Word, msg: seq<Byte>)
    requires |p| > 0
    ensures PlainCrc(p, msg) == Feed(p, Flush(p, Zeros(|p|)), MessageBits(msg, false))
  {
    XorZero(Feed(p, Zeros(|p|), MessageBits(msg, false)));
    ZeroWordFlush(p);
  }

  /** augmented_crc of a message followed by one zero byte for each byte of the divisor is the
      plain CRC of the message. */
  lemma AugmentedEqualsPlain(p: Word, msg: seq<Byte>)
    requires |p| > 0 && |p| % 8 == 0
    ensures AugFeed(p, Zeros(|p|), MessageBits(msg + BigEndian(Zeros(|p|)), false)) == PlainCrc(p, msg)
  {
    MessageBitsConcat(msg, BigEndian(Zeros(|p|)), false);
    BigEndianBits(Zeros(|p|));
    assert Rev(Zeros(|p|)) == Zeros(|p|);
    AugmentedZeroTail(p, Zeros(|p|), MessageBits(msg, false));
    PlainCrcFeeds(p, msg);
  }

  lemma BigEndianUnique(w: Word, tail: seq<Byte>)
    requires |w| == 8 * |tail| && |w| % 8 == 0
    ensures MessageBits(tail, false) == Rev(w) <==> tail == BigEndian(w)
  {
    BigEndianBits(w);
    if MessageBits(tail, false) == Rev(w) {
      MessageBitsInjective(tail, BigEndian(w), false);
    }
  }

  /** Among all tails of that many bytes, exactly the message's own CRC, highest byte first,
      brings augmented_crc to zero. */
  lemma AugmentedVerifies(p: Word, msg: seq<Byte>, tail: seq<Byte>)
    requires |p| > 0 && |p| % 8 == 0 && |p| == 8 * |tail|
    ensures AugFeed(p, Zeros(|p|), MessageBits(msg + tail, false)) == Zeros(|p|)
       <==> tail == BigEndian(PlainCrc(p, msg))
  {
    MessageBitsConcat(msg, tail, false);
    AugmentedCheck(p, Zeros(|p|), MessageBits(msg, false), MessageBits(tail, false));
    PlainCrcFeeds(p, msg);
    BigEndianUnique(PlainCrc(p, msg), tail);
  }

  // ----- the published CRC types -----

  /** Whether a CRC given by constants, as the types are, detects every burst of at most `width` bits. */
  ghost predicate TypeDetectsBursts(width: nat, truncPoly: nat, initRem: nat, finalXor: nat, reflectIn: bool, reflectRem: bool)
    requires width > 0
  {
    DetectsBursts(FromNat(width, truncPoly), FromNat(width, initRem), FromNat(width, finalXor), reflectIn, reflectRem)
  }

  lemma TypeDetectsIffOdd(width: nat, truncPoly: nat, initRem: nat, finalXor: nat, reflectIn: bool, reflectRem: bool)
    requires width > 0
    ensures TypeDetectsBursts(width, truncPoly, initRem, finalXor, reflectIn, reflectRem) <==> truncPoly % 2 == 1
  {
    BurstsDetectedIffOdd(FromNat(width, truncPoly), FromNat(width, initRem), FromNat(width, finalXor), reflectIn, reflectRem);
  }

  /** crc_16_type, crc_ccitt_type and crc_32_type detect every burst as long as their remainder;
      crc_xmodem_type does not. */
  lemma PublishedTypes()
    ensures TypeDetectsBursts(16, 0x8005, 0, 0, true, true)
    ensures TypeDetectsBursts(16, 0x1021, 0xFFFF, 0, false, false)
    ensures !TypeDetectsBursts(16, 0x8408, 0, 0, true, true)
    ensures TypeDetectsBursts(32, 0x04C11DB7, 0xFFFFFFFF, 0xFFFFFFFF, true, true)
  {
    hide TypeDetectsBursts;
    TypeDetectsIffOdd(16, 0x8005, 0, 0, true, true);
    TypeDetectsIffOdd(16, 0x1021, 0xFFFF, 0, false, false);
    TypeDetectsIffOdd(16, 0x8408, 0, 0, true, true);
    TypeDetectsIffOdd(32, 0x04C11DB7, 0xFFFFFFFF, 0xFFFFFFFF, true, true);
  }
}
