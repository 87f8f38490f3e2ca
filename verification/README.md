# Models and proofs for buildCentral and three of its Boost headers

The project models four algorithmic parts of the repository in Dafny and proves what they are for.
`dafny verify dfyconfig.toml` checks all of it.

**CRC engines** (`Gf2`, `CrcDivision`, `CrcTheorems`, `CrcEngines`, `CrcOptimized`).
`boost/crc.hpp` computes cyclic redundancy checks three ways: `crc_basic` divides bit by bit,
`crc_optimal` looks up a table once per byte in a register that may be kept reflected, and
`augmented_crc` divides a message that carries its own tail. The classes keep the source's
registers as whole words, wider than the remainder, whose high bits are never cleared before a
value leaves. Their meaning is `CrcDivision.Feed`, division of polynomials over GF(2) one bit at a
time, and that meaning is in turn proved to be the unique remainder of schoolbook polynomial
division. Everything holds for every width, polynomial, initial value, final xor and pair of
reflection settings.

**Rational arithmetic** (`NumberTheory`, `Fractions`, `Rationals`).
`boost/rational.hpp` keeps fractions reduced. `+=`, `-=`, `*=` and `/=` divide only by partial gcds,
and `<` compares two continued fractions in lockstep. The class updates `num` and `den` in place
with C++ division, and each operator is proved equal to the textbook operation followed by one
reduction, whose value is a real number and whose laws are proved separately.

**Build planner** (`Graphs`, `BuildOrder`, `PackageGraphs`, `BuildMerge`, `BuildPlan`).
`figure_out_build_order` reorders one list in place through recursion, deciding with an index that
goes stale while it moves packages. The class `BuildList` performs those list operations; a
specification that always looks positions up afresh (`BuildOrder.Settle`) gives the list it
reaches, and that list is proved to be in dependency order. The import of build
groups, the graphs the loader makes of them, the linking of `__all__`, the merge over several graphs and
the whole plan of `build_central.py` follow.

**Tokenizers** (`EscapedList`, `CharSeparators`).
`escaped_list_separator` and `char_separator` put out one token per call and keep state between
calls; `token_iterator` drives them. Whole runs are proved equal to a recursive decoder and a
recursive split, and the decoder is proved to invert an encoder.

## How the code is read

- A word is a sequence of bits, lowest first; casts, shifts and masks are written out. `CHAR_BIT`
  is 8. A value type has at least as many bits as the remainder, and the table's type at least 8.
  A byte range given by two pointers is a sequence of bytes. Template arguments of `crc_optimal`
  become constants of the table and of the computer.
- `integer::gcd` is modelled with its treatment of least values (`Rationals.IntegerGcd`); for the
  non-negative numbers that remain it is Euclid's gcd, and `integer::lcm` is built from it. An unbounded
  type has no least value: the zero that its limits report leads to branches that return the same gcd.
- `IntType` is unbounded except in `normalize`, in the comparison and in `*=`. `normalize` takes the type as
  an argument, because it detects one overflow and misses another. Following its own comments, negating a
  least two's-complement value leaves it as it is. A remainder by zero is undefined behaviour, and so is
  the least value `% -1`, unless the type is narrower than `int` and promoted (`narrow`).
- In the comparison and in `*=` the ghost arguments `maxInt`, `maxThis` and `maxThat` name the largest value
  of the type. Any bound that covers the operands may be given, so these methods speak of unbounded types
  too. The helper `Fit` marks each computed value and obliges it to be representable.
- An exception is an outcome: `BadRational` or `false` for `bad_rational`, `Thrown` for `escaped_list_error`, an
  `ImportResult` for the planner's error string.
- A graph maps each node to its distinct out-neighbours in iteration order; Python sets are
  traversed in an arbitrary order. A graph that passed the loader's checks is `Graphs.Sound`: well
  formed, acyclic, and no package depends on `__all__`. Planning `__all__` needs it in every graph
  (`ALL in graph`), since networkx raises otherwise.
- `ispunct` and `isspace` are arbitrary character predicates.

Two places where code and prose or expectation differ, and the model follows the code:

- The prose proof at `rational.hpp` lines 495-508 assumes gcd(b,c)=1 where gcd(c,d)=1 is meant, and
  treats a common divisor h only when it divides b1 or d1 outright. A composite h may share a factor
  with each. `Rationals.PartialReductionCoprime` closes that gap through coprime products.
- A character in both delimiter sets of a `char_separator` is kept under `keep_empty_tokens` and
  dropped under `drop_empty_tokens`; the two recursive specifications say so.

## False as stated, with the exact condition

- Detection of every burst no longer than the remainder: exactly for odd divisors
  (`CrcTheorems.BurstsDetectedIffOdd`, with `CrcTheorems.UndetectedMessages` giving two colliding messages).
  `crc_xmodem_type` is among the even ones (`CrcOptimized.PublishedTypes`).
- Recovery of every field list with a non-empty encoding by `escaped_list_separator` (an empty input has
  no field at all): exactly when the separator is no escape character and `n` is not special
  (`EscapedList.RoundTripsIff`, with `EscapedList.SeparatorLost` and `EscapedList.LetterLost`).
- Normalization of every fraction with a nonzero denominator: in a signed type exactly when n is zero, or
  `integer::gcd` is defined on n and d and they have a common factor or no least value has to change
  sign (`Rationals.NormalizesIff`). Failing inputs: `Rationals.LeastDenominator` (throws),
  `Rationals.LeastNumerator` and `Rationals.LeastOverMinusOne` (wrong sign), `Rationals.LeastOverItself`
  (division by zero).
- A merged order that respects every graph: exactly when each edge (u, v) is kept, that is, when the
  graph that first brings u below `__all__` comes after the one that first brings in v, or is the same and
  has u before v in its own order (`BuildMerge.MergeRespectsIff`). `BuildMerge.CoveredMerge` is the
  condition to check without computing any order, and `BuildMerge.DisagreementBreaksOrder` a configuration
  that the loader accepts and that fails: groups {x} and {a}, where x needs y, y needs a and a needs c. The
  first graph stops at a, since the loader adds one level of dependencies only.
- A dependency build of one package that includes all it needs in any graph: exactly when the first graph
  that holds the package has all of it below the package (`BuildMerge.NothingMissingIff`). In the same
  configuration a build of x omits c (`BuildMerge.DisagreementOmits`).

## Model

| member | source | states |
|---|---|---|
| Gf2.RevRev | external/install/include/boost/crc.hpp:307-326 | Reflecting a word twice gives it back |
| CrcDivision.FeedLinear | external/install/include/boost/crc.hpp:727-751 | Division is linear over GF(2): the remainder of a xor of registers and messages is the xor of the remainders |
| CrcDivision.FeedTop | external/install/include/boost/crc.hpp:507-528 | k zero bits act on a remainder as dividing its k highest bits from zero and shifting the rest out |
| CrcDivision.BlockStep | external/install/include/boost/crc.hpp:956-964 | Feeding a block is one lookup: the remainder of (block xor top of the register) from zero, xor the register shifted out, for blocks of any length |
| CrcDivision.MessageBitsAt | external/install/include/boost/crc.hpp:753-812 | In processing order, bit i of byte k is that byte's bit i when input is reflected and its bit 7 - i when not |
| CrcDivision.FinishAt | external/install/include/boost/crc.hpp:814-823 | Bit i of a checksum is the remainder's bit i, or its bit n - 1 - i when output is reflected, xor bit i of the final value |
| CrcDivision.FeedInPieces | external/install/include/boost/crc.hpp:784-812 | A message fed in two blocks leaves the register of the message fed at once |
| CrcDivision.AugFeedPrefix | external/install/include/boost/crc.hpp:1063-1073 | As long as no injected bit reaches the top, the augmented register is the zero-fed register plus the injected bits |
| CrcTheorems.FlushAugFeed | external/install/include/boost/crc.hpp:1045-1076 | Flushing the augmented division gives the plain division started from the flushed register |
| CrcTheorems.AugmentedTail | external/install/include/boost/crc.hpp:1045-1076 | Augmented division of a message and an n-bit tail is the plain division plus the tail |
| CrcTheorems.AugmentedZeroTail | external/install/include/boost/crc.hpp:1045-1076 | With n zero bits behind the message it is the plain division |
| CrcTheorems.AugmentedCheck | external/install/include/boost/crc.hpp:1045-1076 | The result is zero if and only if the tail is the remainder, highest bit first |
| CrcTheorems.StepKernel | external/install/include/boost/crc.hpp:727-751 | For an odd divisor only the zero register becomes zero under a zero bit |
| CrcTheorems.BlockKernel | external/install/include/boost/crc.hpp:753-770 | For an odd divisor a block of at most n bits leaves zero from zero only if it is all zeros |
| CrcTheorems.WindowDifference | external/install/include/boost/crc.hpp:784-812 | Registers of messages that agree outside a window differ by the window's difference fed from zero and followed by zeros |
| CrcTheorems.BurstDetected | external/install/include/boost/crc.hpp:727-770 | For an odd divisor, different messages that agree outside n consecutive bits leave different registers, from any start |
| CrcTheorems.UndetectedEven | external/install/include/boost/crc.hpp:727-770 | For every even divisor two different n-bit blocks collide |
| CrcTheorems.CollideFromAnywhere | external/install/include/boost/crc.hpp:727-770 | Blocks that collide from the zero register collide from every register |
| CrcTheorems.BitsOfBytes | external/install/include/boost/crc.hpp:772-812 | Every bit string of whole bytes is the processing order of a message |
| CrcTheorems.UndetectedMessages | external/install/include/boost/crc.hpp:784-823 | For every even divisor and all settings, two byte messages that differ only within n consecutive bits have one checksum |
| CrcTheorems.BurstsDetectedIffOdd | external/install/include/boost/crc.hpp:784-823 | For all settings, all byte messages that differ only within n consecutive bits in processing order have different checksums if and only if the truncated divisor is odd |
| CrcTheorems.MessageBitsInjective | external/install/include/boost/crc.hpp:772-812 | Messages of one length with the same bits in processing order are the same message |
| CrcTheorems.ChecksumDetectsBurst | external/install/include/boost/crc.hpp:784-823 | Two messages that differ only within n consecutive bits in processing order have different checksums, whatever the reflections, initial value and final xor |
| CrcTheorems.FeedDivides | external/install/include/boost/crc.hpp:727-751 | Message times x^n plus the shifted initial register equals quotient times divisor plus the final register |
| CrcTheorems.DivisionUnique | external/install/include/boost/crc.hpp:727-751 | Quotient and remainder of that division are unique |
| CrcTheorems.FeedIsTheRemainder | external/install/include/boost/crc.hpp:727-770 | A word is the final register if and only if it is a remainder of the dividend |
| CrcEngines.WordStepLow | external/install/include/boost/crc.hpp:734-750 | On a register wider than the remainder, the low bits after a step are the division step, whatever the high bits are |
| CrcEngines.Reflect | external/install/include/boost/crc.hpp:307-326 | The loop gives the low n bits reversed and zeros above |
| CrcEngines.CrcBasic.constructor | external/install/include/boost/crc.hpp:630-644 | Stores its six settings, the register at the initial remainder |
| CrcEngines.CrcBasic.GetInterimRemainder | external/install/include/boost/crc.hpp:696-704 | Returns the remainder with the high bits cleared |
| CrcEngines.CrcBasic.ResetTo | external/install/include/boost/crc.hpp:706-714 | Replaces the register |
| CrcEngines.CrcBasic.Reset | external/install/include/boost/crc.hpp:716-725 | Puts the register back to the initial remainder |
| CrcEngines.CrcBasic.ProcessBit | external/install/include/boost/crc.hpp:727-751 | Bit i of the remainder becomes the old bit i - 1, flipped by bit i of the divisor when the old highest bit differs from the input bit; the whole-word register makes that division step |
| CrcEngines.CrcBasic.ProcessBits | external/install/include/boost/crc.hpp:753-770 | Feeds the low bit_count bits of a byte, highest first, and nothing of the others |
| CrcEngines.CrcBasic.ProcessByte | external/install/include/boost/crc.hpp:772-782 | Feeds the eight bits, lowest first when input is reflected |
| CrcEngines.CrcBasic.ProcessBlock | external/install/include/boost/crc.hpp:784-812 | Feeds the bits of the whole block to the register as it stands |
| CrcEngines.CrcBasic.GetChecksum | external/install/include/boost/crc.hpp:814-823 | Each bit of the result is the register's bit, counted from the other end of the remainder when output is reflected, xor the final value's; the high bits are zero |
| CrcEngines.SlotInvolution | external/install/include/boost/crc.hpp:530-531 | The map from dividends to slots is its own inverse |
| CrcEngines.SlotsDistinct | external/install/include/boost/crc.hpp:505-533 | Different dividends go to different slots, so each slot is written once |
| CrcEngines.RowStored | external/install/include/boost/crc.hpp:530-531 | The reflected dividend indexes, and the reflected word stores, exactly the entry of that slot; a reflected entry has zero high bits |
| CrcEngines.CrcTable.constructor | external/install/include/boost/crc.hpp:482-486 | A table starts not initialised |
| CrcEngines.CrcTable.DivideByte | external/install/include/boost/crc.hpp:507-528 | The mask loop leaves the remainder of the byte's eight bits from zero |
| CrcEngines.CrcTable.TableStep | external/install/include/boost/crc.hpp:512-527 | The loop body is the same word step that process_bit makes |
| CrcEngines.CrcTable.TableRow | external/install/include/boost/crc.hpp:507-531 | A dividend's slot and stored word are those of the table's specification |
| CrcEngines.CrcTable.FillSlot | external/install/include/boost/crc.hpp:530-531 | Fills the dividend's slot with its entry and no other slot |
| CrcEngines.CrcTable.FillSlots | external/install/include/boost/crc.hpp:503-533 | The loop that ends on wrap-around fills all 256 slots, never one it has already written |
| CrcEngines.CrcTable.InitTable | external/install/include/boost/crc.hpp:489-536 | Bit by bit, slot k then holds the remainder of feeding byte k from zero, reversed over zeros for a reflected table; a later call changes no slot |
| CrcOptimized.IndexBits | external/install/include/boost/crc.hpp:538-612 | The table index, in processing order, is the byte xor the eight highest remainder bits, for either reflection and for remainders shorter than a byte |
| CrcOptimized.ShiftHolds | external/install/include/boost/crc.hpp:564-621 | A right shift of a reflected register and a left shift of an unreflected one both shift the remainder up a byte |
| CrcOptimized.LookupStep | external/install/include/boost/crc.hpp:956-964 | Index, shift and xor carry the register to the remainder eight division steps on |
| CrcOptimized.OutputLow | external/install/include/boost/crc.hpp:984-995 | Reflecting only when the two reflection settings differ yields the remainder in output order |
| CrcOptimized.CrcOptimal.constructor | external/install/include/boost/crc.hpp:832-843 | The register stands for the given remainder and the table is ready; a ready table is unchanged |
| CrcOptimized.CrcOptimal.Reset | external/install/include/boost/crc.hpp:918-929 | The register stands for the given remainder |
| CrcOptimized.CrcOptimal.GetInterimRemainder | external/install/include/boost/crc.hpp:907-916 | Returns the unreflected remainder with the high bits cleared |
| CrcOptimized.CrcOptimal.ProcessByte | external/install/include/boost/crc.hpp:931-942 | The remainder advances by the byte's eight division steps |
| CrcOptimized.CrcOptimal.ProcessBlock | external/install/include/boost/crc.hpp:944-966 | One lookup per byte advances the remainder exactly as eight division steps per byte do |
| CrcOptimized.CrcOptimal.GetChecksum | external/install/include/boost/crc.hpp:984-995 | Each bit of the result is the remainder's, counted from the other end when output is reflected, xor the final value's; the high bits are zero |
| CrcOptimized.Crc | external/install/include/boost/crc.hpp:1025-1040 | Bit by bit, the function template returns the remainder of the buffer from the initial remainder, reflected if asked, xor the final value |
| CrcOptimized.CompareEngines | external/install/include/boost/crc.hpp:784-966 | Both engines with equal settings return the same checksum, on registers of any two widths |
| CrcOptimized.AugmentedLookup | external/install/include/boost/crc.hpp:1063-1073 | One lookup of the augmented loop is eight augmented division steps |
| CrcOptimized.AugmentedCrc | external/install/include/boost/crc.hpp:1045-1076 | The loop computes the augmented division of the buffer, high bits cleared, for remainders of at least a byte |
| CrcOptimized.BigEndianBits | external/install/include/boost/crc.hpp:1066-1071 | A word written highest byte first enters the division highest bit first |
| CrcOptimized.AugmentedEqualsPlain | external/install/include/boost/crc.hpp:1045-1094 | augmented_crc of a message and Bits/8 zero bytes is the plain CRC of the message |
| CrcOptimized.AugmentedVerifies | external/install/include/boost/crc.hpp:1045-1094 | Among all tails of Bits/8 bytes exactly the message's own CRC, highest byte first, gives zero |
| CrcOptimized.PublishedTypes | external/install/include/boost/crc.hpp:93-98 | With their own settings, the checksums of crc_16_type, crc_ccitt_type and crc_32_type detect every burst as long as their remainder; that of crc_xmodem_type does not |
| NumberTheory.TruncatedDivision | external/install/include/boost/rational.hpp:755-758 | The modelled C++ division: quotient times divisor plus remainder, the remainder smaller than the divisor and signed like the dividend |
| NumberTheory.GcdUnique | external/install/include/boost/rational.hpp:838-873 | The modelled gcd is the only natural number that divides both arguments and is divisible by every common divisor |
| NumberTheory.EuclidsLemma | external/install/include/boost/rational.hpp:495-508 | A number coprime to one factor that divides the product divides the other factor |
| NumberTheory.LcmLeast | external/install/include/boost/rational.hpp:984-996 | Every common multiple is a multiple of the lcm |
| Fractions.Canonical | external/install/include/boost/rational.hpp:823-828 | Fractions in normal form are componentwise equal if and only if their cross-products, and if and only if their real values, are equal |
| Fractions.NormalMeans | external/install/include/boost/rational.hpp:396-399 | A fraction is normal if and only if its denominator is positive and no number but one divides both parts |
| Fractions.ReduceFacts | external/install/include/boost/rational.hpp:838-873 | Dividing by the full gcd and fixing the sign gives a normal form of the same value |
| Fractions.ReduceUnique | external/install/include/boost/rational.hpp:838-873 | No other normal form has that value |
| Fractions.AddVal | external/install/include/boost/rational.hpp:489-522 | The specification of addition is normal and denotes the real sum |
| Fractions.MulVal | external/install/include/boost/rational.hpp:543-556 | The specification of multiplication is normal and denotes the real product |
| Fractions.AddCommutes | external/install/include/boost/rational.hpp:489-522 | Addition is commutative up to componentwise equality |
| Fractions.AddAssociates | external/install/include/boost/rational.hpp:489-522 | Addition is associative up to componentwise equality |
| Fractions.MulCommutes | external/install/include/boost/rational.hpp:543-556 | Multiplication is commutative up to componentwise equality |
| Fractions.MulAssociates | external/install/include/boost/rational.hpp:543-556 | Multiplication is associative up to componentwise equality |
| Fractions.MulDistributes | external/install/include/boost/rational.hpp:489-556 | Multiplication distributes over addition up to componentwise equality |
| Fractions.AddUndone | external/install/include/boost/rational.hpp:489-541 | Subtracting what was added restores the very components |
| Fractions.MulUndone | external/install/include/boost/rational.hpp:543-585 | Dividing by what was multiplied restores the very components |
| Fractions.LessIsOrderOfValues | external/install/include/boost/rational.hpp:739-821 | Less-than of fractions is less-than of the numbers they denote |
| Fractions.LessIsStrictTotalOrder | external/install/include/boost/rational.hpp:739-828 | Less-than is irreflexive, transitive, and total with componentwise equality |
| Fractions.LessRespectsAdd | external/install/include/boost/rational.hpp:489-522 | Adding the same number to both sides keeps and reflects the order |
| Rationals.NumeratorCoprimeToCofactor | external/install/include/boost/rational.hpp:501-504 | The unreduced numerator a d1 + c b1 shares no factor with b1 (nor, by symmetry, with d1) |
| Rationals.PartialReductionCoprime | external/install/include/boost/rational.hpp:495-508 | Dividing only by gcd(num, g) leaves numerator and denominator coprime |
| Rationals.PartialReduction | external/install/include/boost/rational.hpp:514-519 | The fraction that += forms is the fully reduced sum |
| Rationals.CrossCancel | external/install/include/boost/rational.hpp:550-554 | The fraction that *= forms by cancelling crosswise is the fully reduced product |
| Rationals.Rational.constructor | external/install/include/boost/rational.hpp:156-159 | An integer becomes a fraction over one, in normal form |
| Rationals.IntegerGcdIff | external/install/include/boost/integer/common_factor_rt.hpp:445-452 | integer::gcd takes the remainder of a zero divisor, or of the least value by -1 in a type that is not promoted, on exactly the listed arguments, all with a least value among them; on all others it gives the gcd |
| Rationals.Representable | external/install/include/boost/rational.hpp:853-870 | Of a reduced fraction the denominator leaves the type exactly for a least d coprime to n, the numerator exactly for a least n coprime to a negative d, and the gcd exactly for a least d with n = 0 or n = d |
| Rationals.NormalizesIff | external/install/include/boost/rational.hpp:838-873 | Normalizing n/d ends well and with the right value if and only if d is not zero and either n is zero, or the gcd is defined and n and d have a common factor or no least value has to change sign |
| Rationals.LeastDenominator | external/install/include/boost/rational.hpp:866-870 | 1 over the least value throws |
| Rationals.LeastNumerator | external/install/include/boost/rational.hpp:859-864 | The least value over minus the greatest is stored with the wrong sign |
| Rationals.LeastOverMinusOne | external/install/include/boost/rational.hpp:853-864 | The least value over -1 is stored with the wrong sign in a narrow type and overflows inside the gcd in others |
| Rationals.LeastOverItself | external/install/include/boost/integer/common_factor_rt.hpp:447-450 | The least value over itself divides by zero inside the gcd, although its reduced form is 1/1 |
| Rationals.Rational.Normalize | external/install/include/boost/rational.hpp:838-873 | Throws exactly on a zero denominator and on a least one coprime to the numerator; is undefined exactly where the gcd is, and zero numerators never reach it; else stores the reduced fraction, with the opposite sign exactly for a least numerator coprime to a negative denominator |
| Rationals.Rational.Assign | external/install/include/boost/rational.hpp:188-194 | Assigns what normalizing n/d stores, and leaves the number alone when that throws |
| Rationals.Rational.AddAssign | external/install/include/boost/rational.hpp:489-522 | += gives exactly the reduced sum, also when both operands are one object |
| Rationals.Rational.SubAssign | external/install/include/boost/rational.hpp:524-541 | -= gives exactly the reduced difference, also when both operands are one object |
| Rationals.Rational.MulAssign | external/install/include/boost/rational.hpp:543-556 | *= gives exactly the reduced product, both gcds are defined, and every intermediate value is representable whenever that product is |
| Rationals.Rational.DivAssign | external/install/include/boost/rational.hpp:558-585 | /= fails exactly on a zero divisor without changing the number, else gives the reduced quotient with positive denominator |
| Rationals.Rational.AddAssignInteger | external/install/include/boost/rational.hpp:266-271 | += with an integer gives the reduced sum without any gcd |
| Rationals.Rational.SubAssignInteger | external/install/include/boost/rational.hpp:272-277 | -= with an integer gives the reduced difference without any gcd |
| Rationals.Rational.MulAssignInteger | external/install/include/boost/rational.hpp:278-286 | *= with an integer gives the reduced product with one gcd |
| Rationals.Rational.DivAssignInteger | external/install/include/boost/rational.hpp:287-307 | /= with an integer fails exactly on zero, else gives the reduced quotient |
| Rationals.Rational.Equals | external/install/include/boost/rational.hpp:823-828 | == decides equality of cross-products |
| Rationals.Rational.EqualsInteger | external/install/include/boost/rational.hpp:374-378 | == with an integer decides equality of values |
| Rationals.FloorOrder | external/install/include/boost/rational.hpp:775-781 | Different floors decide the order of two fractions |
| Rationals.NextCycle | external/install/include/boost/rational.hpp:783-795 | With equal quotients, going on to the reciprocals of the fractional parts reverses the order |
| Rationals.ExpansionEnded | external/install/include/boost/rational.hpp:786-820 | When an expansion has ended, the zero remainders decide the order under either parity |
| Rationals.FirstCycle | external/install/include/boost/rational.hpp:755-767 | The first term is brought to a remainder in [0, d) without leaving the operand's range |
| Rationals.NextTerm | external/install/include/boost/rational.hpp:792-795 | The next term expands d/r, again within range |
| Rationals.Rational.Less | external/install/include/boost/rational.hpp:739-821 | < terminates and holds if and only if n1 d2 < n2 d1, each operand's intermediates within the range of its own components |
| Rationals.Rational.LessInteger | external/install/include/boost/rational.hpp:352-368 | < against an integer decides the order of values by the floor alone |
| Rationals.InnerGcdIsGcd | external/install/include/boost/rational.hpp:386-390 | Euclid on truncated remainders gives the gcd up to sign |
| Rationals.IsNormalizedIsNormal | external/install/include/boost/rational.hpp:403-409 | The conversion check accepts exactly the normal forms |
| Rationals.MultipleOfMeans | external/install/include/boost/rational.hpp:970-996 | One fraction is a multiple of another if and only if its value is an integer times the other's |
| Rationals.MultipleOfNormal | external/install/include/boost/rational.hpp:970-996 | A normal fraction is an integer multiple of another if and only if numerators divide one way and denominators the other |
| Rationals.GcdFractionNormal | external/install/include/boost/rational.hpp:970-982 | gcd of numerators over lcm of denominators is already in normal form |
| Rationals.GcdFractionGreatest | external/install/include/boost/rational.hpp:970-982 | That fraction divides both arguments and is divisible by every common rational divisor |
| Rationals.GcdEvaluator | external/install/include/boost/rational.hpp:970-982 | The evaluator returns such a greatest common divisor, non-negative and normal |
| Rationals.LcmFractionNormal | external/install/include/boost/rational.hpp:984-996 | lcm of numerators over gcd of denominators is already in normal form |
| Rationals.LcmFractionLeast | external/install/include/boost/rational.hpp:984-996 | That fraction is a multiple of both arguments and divides every common rational multiple |
| Rationals.LcmEvaluator | external/install/include/boost/rational.hpp:984-996 | The evaluator returns such a least common multiple, non-negative and normal |
| Graphs.FewerDependencies | buildCentral/tools/buildCentral/bc_core.py:762-763 | In an acyclic graph a neighbour has strictly fewer dependencies, so the recursion ends |
| BuildOrder.PlaceOneFacts | buildCentral/tools/buildCentral/bc_core.py:755-760 | Placing one neighbour puts it behind the package, keeps the list duplicate-free and lets nothing else fall back |
| BuildOrder.Settle | buildCentral/tools/buildCentral/bc_core.py:753-763 | The reordered list is duplicate-free, gains exactly the package's dependencies, has the package and all of these in order, and only these may have fallen behind others |
| BuildOrder.SettleAll | buildCentral/tools/buildCentral/bc_core.py:762-763 | Settling neighbours one after another repairs every edge an earlier call had broken below them |
| BuildOrder.SettleSteps | buildCentral/tools/buildCentral/bc_core.py:753-763 | Settling a package is placing all its neighbours, then settling them |
| BuildOrder.SettleAllConcat | buildCentral/tools/buildCentral/bc_core.py:762-763 | Settling one list of neighbours and then another is settling both in that order |
| BuildOrder.StaleIndexDecides | buildCentral/tools/buildCentral/bc_core.py:754-759 | For a neighbour not placed yet, the slices at the stale index decide as slices at the fresh position would |
| BuildOrder.StaleIndexKept | buildCentral/tools/buildCentral/bc_core.py:754-760 | Whatever a neighbour's branch does, the places between the package and the stale index hold only placed neighbours |
| BuildOrder.DeleteAndInsert | buildCentral/tools/buildCentral/bc_core.py:757-758 | Deleting and inserting by positions is the move just behind the package |
| BuildOrder.BuildList.PlaceNeighbors | buildCentral/tools/buildCentral/bc_core.py:754-760 | The first loop, with its stale index, reaches the list of the index-free specification |
| BuildOrder.BuildList.FigureOutBuildOrder | buildCentral/tools/buildCentral/bc_core.py:753-763 | The recursion terminates and leaves exactly the specified list |
| BuildOrder.BuildList.GenerateForSingleGraph | buildCentral/tools/buildCentral/bc_core.py:765-768 | An absent package is appended and settled; a present one changes nothing |
| BuildMerge.ClosedUnderDependencies | buildCentral/tools/buildCentral/bc_core.py:765-768 | A list in dependency order holds everything below its members |
| BuildMerge.AddFromGraph | buildCentral/tools/buildCentral/bc_core.py:765-768 | Each further call on one shared list keeps it duplicate-free, closed and in order for all agreeing graphs, and adds exactly the package and its dependencies, also when earlier entries must move behind it |
| BuildMerge.AddFromGraphsFacts | buildCentral/tools/buildCentral/bc_core.py:786-790 | The loop over graphs keeps that order and adds exactly what the package needs in any graph |
| BuildMerge.OnlyFirstHolder | buildCentral/tools/buildCentral/bc_core.py:786-790 | Whether the graphs agree or not, only the first graph that holds the package adds anything for it |
| BuildMerge.AddedContents | buildCentral/tools/buildCentral/bc_core.py:786-790 | From any list, what is added is exactly the package and what is below it in that graph, or nothing if the list has the package |
| BuildMerge.AddedMembers | buildCentral/tools/buildCentral/bc_core.py:786-790 | Whether the graphs agree or not, the list only grows, by packages that some graph has, and contains the package if some graph does |
| BuildMerge.NothingMissingIff | buildCentral/tools/buildCentral/bc_core.py:786-790 | From an empty list, no dependency in any graph is omitted if and only if everything that the package, or a package below it, needs in any graph is below the package in that graph |
| BuildMerge.DisagreementOmits | buildCentral/tools/buildCentral/bc_core.py:786-790 | Two graphs that the loader makes from one configuration, from which a dependency build of x omits a package that is needed |
| BuildMerge.AppendNewFacts | buildCentral/tools/buildCentral/bc_core.py:776 | Merging keeps the old list's order, adds each new element once, and keeps what precedes a new element before it |
| BuildMerge.OrderFromAll | buildCentral/tools/buildCentral/bc_core.py:774 | Starting from `__all__` alone, the order holds exactly the nodes reachable from it, each before its dependencies |
| BuildMerge.MergedMembers | buildCentral/tools/buildCentral/bc_core.py:772-776 | After any number of graphs the merged list holds `__all__` and each package below it in one of them, once, whether the graphs agree or not |
| BuildMerge.MergedPrefix | buildCentral/tools/buildCentral/bc_core.py:772-776 | Later graphs only add behind what earlier graphs brought in |
| BuildMerge.MergedBefore | buildCentral/tools/buildCentral/bc_core.py:772-776 | Of two packages first brought in by graphs i and j, v stands before u in the merge if and only if j < i, or j = i and the order of that graph has u before v |
| BuildMerge.AllPackagesMembers | buildCentral/tools/buildCentral/bc_core.py:770-781 | The handed-on order holds each package below any `__all__` once, without `__all__`, whether the graphs agree or not |
| BuildMerge.MergeRespectsIff | buildCentral/tools/buildCentral/bc_core.py:770-781 | The handed-on order has every package before its dependencies in all graphs if and only if, for every edge (u, v) with u first brought in by graph i, v is first brought in by an earlier graph, or by i with u before v in the order of i |
| BuildMerge.CoveredMerge | buildCentral/tools/buildCentral/bc_core.py:770-781 | It is enough that u depends on v, through any chain, in the graph that first brings in u, or that an earlier graph brings in v |
| BuildMerge.AgreeIff | buildCentral/tools/buildCentral/bc_core.py:421-427 | Graphs agree if and only if each edge from a shared package other than `__all__` is in every graph that has the package |
| BuildMerge.AgreeCovers | buildCentral/tools/buildCentral/bc_core.py:421-427 | Graphs that agree on the dependencies of shared packages satisfy that condition |
| BuildMerge.LoadedCovered | buildCentral/tools/buildCentral/bc_core.py:420-450 | So do the loader's graphs when each package is listed, within one level, by the group whose graph first brings it in, or has no dependencies |
| BuildMerge.AllPackagesFacts | buildCentral/tools/buildCentral/bc_core.py:770-781 | The merged order lists each package below any `__all__` once, without `__all__`, before everything it depends on in any graph |
| BuildMerge.NothingOmitted | buildCentral/tools/buildCentral/bc_core.py:770-781 | When `__all__` reaches every package of its graph, the merged order holds every package of every graph, agreeing or not |
| BuildMerge.LinkedOrderComplete | buildCentral/tools/buildCentral/bc_core.py:465-479 | After linking roots and isolated packages, the order built from `__all__` holds every package once and in order |
| BuildMerge.LateComesFirst | buildCentral/tools/buildCentral/bc_core.py:772-778 | Among any number of graphs, a package that a later graph first brings in ends up before every package that an earlier graph did |
| BuildMerge.DisagreementBreaksOrder | buildCentral/tools/buildCentral/bc_core.py:420-479 | A configuration and two groups from which the loader makes two sound graphs whose merged order is wrong |
| BuildPlan.AppendMissing | buildCentral/tools/buildCentral/bc_core.py:776 | The comprehension appends what is missing, in order |
| BuildPlan.GenerateAllBuildOrder | buildCentral/tools/buildCentral/bc_core.py:770-781 | Appends the merged order of all graphs to the list |
| BuildPlan.OrderOfFacts | buildCentral/tools/buildCentral/bc_core.py:783-790 | Adding a package, or `__all__` to an empty list, keeps the order and adds exactly what is needed |
| BuildPlan.GenerateBuildOrder | buildCentral/tools/buildCentral/bc_core.py:783-790 | Leaves the list that the specification of both branches gives |
| BuildPlan.OrderPackages | buildCentral/tools/buildCentral/build_central.py:207-210 | Accumulating in any order and reversing gives a duplicate-free list of packages that some graph has, with each requested one among them; for agreeing graphs exactly the needed ones, each after everything it depends on; for one name alone the reverse of its own order, and for `__all__` in order if and only if the merge keeps every edge |
| BuildPlan.GetTools | buildCentral/tools/buildCentral/bc_core.py:792-797 | Collects exactly the tools of the packages other than `__all__` |
| BuildPlan.FilterOrder | buildCentral/tools/buildCentral/build_central.py:214-214 | Filtering a duplicate-free list keeps the order of what stays |
| BuildPlan.HostToolsFirst | buildCentral/tools/buildCentral/build_central.py:271-272 | Host tools followed by the packages they do not cover list each package once, after all its dependencies in any graph |
| BuildPlan.AfterAllDependencies | buildCentral/tools/buildCentral/build_central.py:207-222 | In such a list a package comes after everything it depends on, directly or not |
| BuildPlan.FilterKeeps | buildCentral/tools/buildCentral/build_central.py:214-272 | Whatever a filter leaves of an ordered list comes after the members it depends on, through any chain |
| BuildPlan.SelectedMembers | buildCentral/tools/buildCentral/build_central.py:214-214 | The filtered list holds exactly the selected packages that some graph has, agreeing or not |
| BuildPlan.PlanBuild | buildCentral/tools/buildCentral/build_central.py:176-272 | Contents and order of both build lists in the three modes: selected packages only, cross build and native build. Order and completeness below several packages need the agreement named; selected packages, and one package or `__all__` alone, are listed exactly in any case |
| PackageGraphs.LinkedAcyclic | buildCentral/tools/buildCentral/bc_core.py:475-479 | Linking `__all__` adds no cycle |
| PackageGraphs.ReachedFromAll | buildCentral/tools/buildCentral/bc_core.py:465-479 | Every node is reachable from `__all__` once all roots and isolated packages are linked |
| PackageGraphs.SomeRoot | buildCentral/tools/buildCentral/bc_core.py:465-474 | A non-empty acyclic graph has a node of in-degree zero |
| PackageGraphs.WidenGroup | buildCentral/tools/buildCentral/bc_core.py:420-427 | Adds the direct dependencies of a group's packages, one level and no more, or fails on a package that is not configured |
| PackageGraphs.AddPackage | buildCentral/tools/buildCentral/bc_core.py:445-450 | Adds exactly one package's edges, or fails on a dependency that is not configured; every node keeps an edge |
| PackageGraphs.AddDependencies | buildCentral/tools/buildCentral/bc_core.py:420-450 | The graph of a group has exactly the dependencies of its widened package list and no isolated node, and is made if and only if all of these are configured |
| PackageGraphs.LoadedFacts | buildCentral/tools/buildCentral/bc_core.py:420-479 | A loaded graph is sound, has exactly those dependencies, and reaches everything from `__all__` |
| PackageGraphs.LinkRoots | buildCentral/tools/buildCentral/bc_core.py:465-479 | Adds exactly the edges from `__all__` to roots and isolated packages; the graph stays sound and everything is reachable from `__all__` |
| PackageGraphs.PackageSet.ImportBuildGroup | buildCentral/tools/buildCentral/bc_core.py:66-79 | Succeeds if and only if every included group is defined, then adds exactly their packages; otherwise names the first undefined group in visiting order and has added only packages of included ones |
| EscapedList.DecodeByFields | external/install/include/boost/token_functions.hpp:161-198 | The decoder of a whole input is the scan of one field followed by the decoder of the rest |
| EscapedList.RunIsDecode | external/install/include/boost/token_iterator.hpp:53-75 | The tokens of successive calls, or the exception that ends them, are those of the recursive decoder |
| EscapedList.DecodeJudged | external/install/include/boost/token_functions.hpp:126-198 | Decoding any input, from inside or outside quotes, throws exactly when it has a bad escape, and the first bad escape decides the exception |
| EscapedList.ThrowsIff | external/install/include/boost/token_functions.hpp:126-148 | A run throws if and only if some escape character, itself not escaped, ends the input or precedes a character that is neither n nor in one of the three strings; the first such one says which exception |
| EscapedList.ScanFails | external/install/include/boost/token_functions.hpp:161-178 | A field that cannot be read leaves the input behind the first bad escape character |
| EscapedList.DecodeEscape | external/install/include/boost/token_functions.hpp:126-148 | Inside quotes and outside, an escape character before n means a newline, before a character of the three strings that character, before any other or the end an exception |
| EscapedList.DecodeSeparator | external/install/include/boost/token_functions.hpp:179-189 | Outside quotes a separator ends the field |
| EscapedList.Verbatim | external/install/include/boost/token_functions.hpp:175-197 | Text without escapes means itself outside quotes if it has no separators or quotes, and inside quotes even with separators |
| EscapedList.QuotedVerbatim | external/install/include/boost/token_functions.hpp:179-192 | A quoted text means the text, separators included, without its quotes; an unclosed quote reaches to the end |
| EscapedList.EscapedListSeparator.constructor | external/install/include/boost/token_functions.hpp:152-157 | Starts with no separator passed |
| EscapedList.EscapedListSeparator.Reset | external/install/include/boost/token_functions.hpp:159-159 | Forgets a passed separator |
| EscapedList.EscapedListSeparator.DoEscape | external/install/include/boost/token_functions.hpp:126-148 | Appends the escaped character and advances to it, or throws on the input's end and on an unknown escape |
| EscapedList.EscapedListSeparator.Call | external/install/include/boost/token_functions.hpp:161-198 | Puts out one field and leaves the input behind its separator, or throws and leaves it behind the offending escape character; at the end one blank field if a separator was last, then none |
| EscapedList.EscapedTokenIterator.Initialize | external/install/include/boost/token_iterator.hpp:70-75 | What is to come is the decoded input, nothing for an empty one; an exception is the decoder's |
| EscapedList.EscapedTokenIterator.Increment | external/install/include/boost/token_iterator.hpp:53-56 | Takes the first token off what is to come, or throws where the decoder does |
| EscapedList.AllTokens | external/install/include/boost/token_iterator.hpp:53-83 | A loop over an iterator ends and collects exactly the decoded fields up to the exception, if any |
| EscapedList.DecodeEncodedField | external/install/include/boost/token_functions.hpp:126-148 | An escaped text means the text, inside quotes and outside |
| EscapedList.DecodeEncode | external/install/include/boost/token_functions.hpp:126-198 | Decoding the escaped and joined encoding of a field list gives the list back, empty and trailing empty fields included, without an exception |
| EscapedList.RoundTripsIff | external/install/include/boost/token_functions.hpp:126-198 | Every field list with a non-empty encoding is recovered if and only if the separator is no escape character and n is not special |
| EscapedList.SeparatorLost | external/install/include/boost/token_functions.hpp:176-178 | With an escaping separator a list of two empty fields is not recovered |
| EscapedList.LetterLost | external/install/include/boost/token_functions.hpp:130-133 | With a special n the one-letter field n is not recovered |
| CharSeparators.SplitField | external/install/include/boost/token_functions.hpp:486-525 | A split field reaches to the first delimiter or to the end; a kept delimiter is the next token, and the split goes on behind it |
| CharSeparators.SplitCount | external/install/include/boost/token_functions.hpp:490-526 | A split that keeps empty tokens has one token, one more per dropped delimiter and two more per kept one |
| CharSeparators.SplitLosesOnlyDropped | external/install/include/boost/token_functions.hpp:457-527 | The tokens in order concatenate to the input without its dropped delimiters |
| CharSeparators.KeepRunIsSplit | external/install/include/boost/token_functions.hpp:490-526 | From either state of the flag, the calls of a keep_empty_tokens run, some of which consume nothing, put out exactly the recursive split, or its rest behind the first field |
| CharSeparators.DropRunIsSplit | external/install/include/boost/token_functions.hpp:468-489 | A drop_empty_tokens run puts out the recursive split without its empty tokens |
| CharSeparators.CharSeparator.constructor | external/install/include/boost/token_functions.hpp:433-447 | Exactly the characters of the first string are dropped and exactly those of the second kept; no token has been put out |
| CharSeparators.CharSeparator.ByLocale | external/install/include/boost/token_functions.hpp:449-453 | Exactly the locale's punctuation is kept and its white space dropped, with empty tokens |
| CharSeparators.CharSeparator.Call | external/install/include/boost/token_functions.hpp:457-527 | Puts out the first token of what is to come or reports that there is none; a call that consumes nothing is followed by one that does |
| CharSeparators.CharSeparator.CallDropping | external/install/include/boost/token_functions.hpp:468-489 | The drop_empty_tokens branches put out the next non-empty token and always consume input |
| CharSeparators.CharSeparator.CallKeeping | external/install/include/boost/token_functions.hpp:490-526 | The keep_empty_tokens branches put out the next token and leave the flag for the one behind it |
| CharSeparators.CharSeparator.ScanWord | external/install/include/boost/token_functions.hpp:520-521 | Stops at the first delimiter or at the end |
| CharSeparators.CharSeparator.Copy | external/install/include/boost/token_iterator.hpp:79-80 | The copy has the settings and the flag of the original |
| CharSeparators.CharTokenIterator.constructor | external/install/include/boost/token_iterator.hpp:70-83 | What is to come is the run of a copy of the functor over the input, nothing for an empty one; the functor itself is untouched |
| CharSeparators.CharTokenIterator.Increment | external/install/include/boost/token_iterator.hpp:53-56 | Takes the first token off what is to come |
| CharSeparators.AllTokens | external/install/include/boost/token_iterator.hpp:53-83 | A loop over an iterator ends and collects the recursive split, whole or without empty tokens by policy |

## Left out

- Process spawning, environments, cmake and make commands, logging, file and JSON loading, argument parsing and image making: the package graphs are inputs here.
- PackageGraphs.PackageSet.ImportBuildGroup: needs groups without cyclic bases, on which the source recurses without end; the wording of the error string is not modelled.
- PackageGraphs.AddDependencies: reads the `Dependency` entries only; `Tools` entries, which add edges when the target is the host, and the search for simple cycles (bc_core.py lines 422-424, 437-443 and 457-463) are not modelled, and what follows takes an acyclic graph.
- PackageGraphs.WidenGroup: adds `Dependency` entries only; on a native target the source also adds `Tools` entries (bc_core.py lines 422-424).
- PackageGraphs.AddPackage: adds `Dependency` edges only; on a native target the source also adds edges to tools (bc_core.py lines 437-443).
- PackageGraphs.LoadedFacts: speaks of graphs made from `Dependency` entries; a native target's graphs may hold `Tools` edges too.
- The mutual order of packages that several calls for single packages add from graphs that disagree, and `__all__` mixed with other names or added to a non-empty list: the code guarantees no order there. What one package adds, and `__all__` from an empty list, are covered for all sound graphs.
- The algorithms behind `integer::gcd` on non-negative numbers (mixed binary, Stein, Euclid) and the choice among them: taken as the gcd.
- The listing mode (`-la`), exclusion (`-e`) and retry logic of build_central.py.
- BuildOrder.BuildList.FigureOutBuildOrder: needs an acyclic graph, since the source recurses without end on a cycle.
- BuildPlan.GenerateAllBuildOrder: needs `__all__` in every graph, because the source lets networkx raise when it is missing.
- Rationals.Rational.AddAssign: unbounded integers only; its unreduced sum may overflow a machine type even when the result fits.
- Rationals.Rational.SubAssign: unbounded integers only, for the same reason.
- Rationals.Rational.DivAssign: unbounded integers only, as it negates the numerator.
- Rationals.Rational.MulAssignInteger: unbounded integers only, like the other operators with an integer argument.
- Rationals.GcdEvaluator: unbounded integers only, like `Rationals.LcmEvaluator`.
- Stream input and output, rational_cast, conversions between integer types, increment, decrement and the operators derived from these: plumbing or one-line compositions.
- The value type of `crc_optimal` may be wider than that of `crc_basic`; `CrcOptimized.CompareEngines` allows any two widths, but integer promotion inside one expression is not modelled.
- CrcOptimized.AugmentedCrc: needs at least 8 bits, below which the source shifts by a negative amount.
- CrcEngines.CrcTable.InitTable: one table object stands for the static table of a template instance; two threads filling it at once are not modelled.
- Equality of token iterators, tokens assembled from single-pass iterators, `offset_separator` and the deprecated `char_delimiters_separator`.
- All other headers: forwarding, macros, type traits, containers.
