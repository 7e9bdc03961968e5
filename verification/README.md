# Verified models of the boot loader's core algorithms

Four groups of models, each proved against a short mathematical meaning.

**Multi-precision integers and RSA key algebra** (`mbedtls/bignum.c`, `mbedtls/rsa_internal.c`). An `Mpi` is an object
with a sign and a vector of limbs, changed step by step by the operations; `Value()` is the integer it denotes. The
limb width is either 32 or 64 bits. Addition, subtraction and multiplication are exact under aliasing; division follows
Knuth's algorithm with its trial digits; Montgomery products carry the sliding-window exponentiation; binary gcd and
the extended variant give inverses; RSA deduction and validation rest on all of these; numbers are written as text and
read back. Every result is stated for the case that memory could be allocated: an allocation may fail at any point,
and then nothing is claimed but the status.

**Flattened device trees** (`libfdt`). A blob is a byte array with block offsets. Its structure block is a line of
tokens, whose meaning (with names looked up and fillers dropped) is a line of events; a tree has exactly one such line.
Every call is stated on the tree: `Holds(b, t)` says that blob `b` holds tree `t`, and each editing call leads from one
tree to the next while the bytes are spliced in place. Structure offsets denote events through `EvOff`, so that "this
offset still denotes the same node" is a statement too. On top of the editor sit overlay merging and the
renumbering of an overlay: its phandles moved above the base's, and the references its fixups list moved along, as one
statement about every word of the tree; the sequential writer produces a blob that says what the calls said.

**Run-time memory allocator and memory map** (`bootlib/alloc.c`, `bootlib/e820.c`, `bootlib/sort.c`, inlines of
`include/bootlib.h`). The allocation table is an object over an array, with the history of grants as ghost state; its
invariant over a whole run is what `Alloc` preserves. The memory map is sorted, merged and turned into bans, in 64-bit
arithmetic with explicit wrap-around.

**Streaming hashes** (`mbedtls/sha256.c`, `libmd5/md5.c`). Buffered incremental hashing equals a fold of the
compression function over the padded message; both compiled forms of the SHA-256 compression and the 64 lines of the
MD5 transform are those of the standards. What those functions compute is fixed by known digests as literals, and the
SHA-256 tables by the roots they are taken from.

`dafny verify dfyconfig.toml` checks everything.

Ghost parameters (trees, paths, event numbers, tokens) only say what the blob held; they have no part in what the
methods compute.

## Where the code does not do what one would expect

- `mbedtls_mpi_gcd` returns 0 when the second operand is 0 and the first is not: `GcdResultIsGcd` states exactly when the
  result is the greatest common divisor.
- `mbedtls_mpi_exp_mod` returns N instead of 0 for a negative base whose odd power N divides, as (-3)^1 modulo 3
  (`ExpExample`). `ExpResultIsPower` says exactly when, by common divisors alone; `ExpOfCoprime`, `ExpOfMultiple` and
  `ExpSquareFree` are the cases a caller meets.
- `mbedtls_mpi_div_mpi` reads the operands' signs after it has stored the quotient: the sign of an aliased quotient is
  right exactly under `SignSurvives`, a condition on the signs and on which objects are the same, and a remainder asked
  for together with a quotient that is the dividend itself is right exactly under `RemainderSurvives`. `DivInt` spells
  both conditions out for a machine word.
- `mbedtls_rsa_deduce_primes` does not look whether its candidate could be allocated: while it could not, bases are passed over
  (the parameter `lost` of `DeducePrimes`), and the factors may be missed. Even N are refused.
- The 16-bit counter of `mbedtls_rsa_deduce_primes` can never pass its bound when the order of two in D*E - 1 is 65535
  modulo 2^16, a number of at least 8 kilobytes: `CounterPasses` and `ShortOrderMeans`. The model leaves those orders out.
- Allocating the last free address leaves the table with one entry of length 0, since 2^64 has no representation.
- Merging a memory map that says the same of every address ends, for the same reason, with one entry of length 0.
- Overlapping map entries can lose addresses when merged (`OverlapExample`): exactly when an entry of a run ends behind
  the last one of the run and nothing else reports those addresses, run by run (`FusedKeepsExactly`, `RunKeeps`,
  `OverlapIsLost`) and for the merged map as a whole (`OverlapsKept`).
- An entry of length 0 stops the blacklisting walk from getting past it (`EmptyEntryHidesTheRest`). The ban is complete
  all the same exactly when the memory behind it is available or shares a banned page: `CompleteExactly`,
  `CompleteWhenAligned`.
- The hole before a map entry that overlaps the one before is computed as a length that wraps around the whole space
  (`HoleWraps`), although the check before only warns of overlaps.
- The range test of `fdt_setprop_inplace_namelen_partial` wraps: for a word at one of the places 0xfffffffc to 0xffffffff
  it accepts a value that the place lies far behind (`LastPlacesAccepted`). What it accepts lies inside the value exactly
  when the sum does not wrap (`RangeTestWraps`); a fixup list can hold such places.
- The test for room of `fdt_add_string_` wraps when name and strings are longer than the whole blob (`LongNamesPass`,
  `RoomTestWraps`).
- A phandle of zero written out in an overlay is moved like any other and then equals the base's largest phandle
  (`ZeroCollides`); `AboveTheBase` says that this is the only way a moved phandle meets one of the base.
- Phandles inside `__local_fixups__` are moved too, since the first pass starts at the root. A fixup that lists a phandle
  therefore makes the second pass fail unless the difference is zero (`Unlisted`).
- A property length word of 2^32 - 12 makes `fdt_next_tag` stay where it is (`NextTagAdvances`), and a larger one makes
  it go back into the property. `fdt_check_full` walks with it: its verdict is exact on all bytes without such a length
  on the way (`AcceptsWellFormed`, `CheckTokens`).
- `fdt_num_mem_rsv` counts up to the first entry of size zero, also when the writer was given one before the end
  (`CountStopsAtZero`); the 32-bit test for an entry's place wraps from number 2^28 on (`RsvTestWraps`).
- `mbedtls_sha256_update` counts the low 32 bits of a chunk's length only. `Update` and `Hash` say what a longer chunk
  leads to; the padding is right exactly when the counter is the length modulo 2^61 (`RightPadding`, `LongChunk`).
- `mbedtls_mpi_mod_mpi` never returns when result and modulus are one object (`OneObjectNeverEnds`).
- A cell listed several times in `__local_fixups__` is moved as many times (`WordCounted`), which is harmless exactly when
  the further moves cancel modulo 2^32 (`ListedOften`, `ReferenceFollows`).
- `mbedtls_mpi_mod_int` loses bits for divisors above 2^biH: it divides every number right exactly when the divisor is not
  above 2^biH or divides the limb base (`RightForAll`); otherwise the limb base itself gets remainder 0 (`BaseIsWrong`).
- A text consisting of a minus sign alone, or of nothing, is read as zero.

## Model

| member | source | states |
|---|---|---|
| `Limbs.ValInjective` | mbedtls/bignum.c:1013-1040 | limb vectors of one length denote different numbers unless they are equal |
| `Limbs.ValLess` | mbedtls/bignum.c:1033-1037 | the first differing limb from the top decides which number is smaller |
| `MpiCore.Mpi.Grow` | mbedtls/bignum.c:122-147 | growing adds zero limbs on top and keeps the number; the limb count is the larger of the old and the requested one |
| `MpiCore.Mpi.Copy` | mbedtls/bignum.c:194-231 | the target denotes the source number afterwards and keeps its room, except that an empty source empties it |
| `MpiCore.Mpi.Lset` | mbedtls/bignum.c:318-332 | the object denotes the given machine word, whatever it held before |
| `MpiCore.SignificantLimbs` | mbedtls/bignum.c:1019-1025 | dropping the zero limbs on top keeps the number, and the limb below is the leading one |
| `MpiCore.CmpAbs` | mbedtls/bignum.c:1013-1040 | the sign of the difference of the magnitudes, whatever zero limbs lie on top |
| `MpiCore.CmpMpi` | mbedtls/bignum.c:1045-1075 | the sign of the difference of the two integers, both zeros being equal |
| `MpiCore.CmpInt` | mbedtls/bignum.c:1181-1193 | the sign of the difference to a machine word |
| `MpiAddSub.AddCarry` | mbedtls/bignum.c:1231-1236 | the two wrapped comparisons together give the carry of a three-term limb sum, and never both |
| `MpiAddSub.AddAbs` | mbedtls/bignum.c:1198-1252 | the magnitudes are added exactly for every aliasing of the three objects; the carry ends inside the grown limbs |
| `MpiAddSub.SubHelper` | mbedtls/bignum.c:1257-1273 | a number not larger than the vector is subtracted exactly; the borrow never leaves the vector |
| `MpiAddSub.SubAbs` | mbedtls/bignum.c:1278-1319 | the magnitudes are subtracted exactly; refused exactly when the result would be negative, and then nothing changed |
| `MpiAddSub.AddMpi` | mbedtls/bignum.c:1324-1354 | signed addition is exact for every aliasing of the three objects and every sign |
| `MpiAddSub.SubMpi` | mbedtls/bignum.c:1359-1389 | signed subtraction is exact for every aliasing of the three objects and every sign |
| `MpiAddSub.AddInt` | mbedtls/bignum.c:1394-1407 | adding a machine word of either sign is exact |
| `MpiAddSub.SubInt` | mbedtls/bignum.c:1412-1425 | subtracting a machine word of either sign is exact |
| `MpiShift.BitLen` | mbedtls/bignum.c:417-431 | the bit length: the number lies below that power of two and not below the one before |
| `MpiShift.Lsb` | mbedtls/bignum.c:383-394 | the number of trailing zero bits, and 0 for zero |
| `MpiShift.CountLeadingZeros` | mbedtls/bignum.c:399-412 | together with the bit length of the limb it makes up the limb width |
| `MpiShift.OrIsSum` | mbedtls/bignum.c:952-958 | an or of parts that share no bit is their sum, which is what moving bits between limbs relies on |
| `MpiShift.ShiftL` | mbedtls/bignum.c:918-964 | the magnitude is multiplied by the power of two, with room for exactly the limbs it needs |
| `MpiShift.ShiftR` | mbedtls/bignum.c:969-1008 | the magnitude is divided by the power of two, so negative numbers are rounded toward zero |
| `MpiMul.MulAddCoreExact` | mbedtls/mbedtls/bn_mul.h:891-910 | four half-limb products with wrapped additions give low and high limb of s*b + c + d exactly |
| `MpiMul.MulHelper` | mbedtls/bignum.c:1438-1497 | a limb multiple of one vector is added at an offset of another; the carry ends inside when the sum fits |
| `MpiMul.MulMpi` | mbedtls/bignum.c:1502-1537 | signed multiplication is exact for every aliasing of the three objects |
| `MpiMul.MulInt` | mbedtls/bignum.c:1542-1555 | multiplication by an unsigned limb is exact |
| `LimbDivision.TestIsExact` | mbedtls/bignum.c:1624-1630 | the half-limb comparison asks exactly whether the digit estimate overshoots |
| `LimbDivision.HalfDigit` | mbedtls/bignum.c:1621-1630 | a half-limb quotient digit is exact after at most two corrections |
| `LimbDivision.RemainderIsExact` | mbedtls/bignum.c:1632-1645 | the modular remainder expressions equal their unbounded values and lie below the divisor |
| `LimbDivision.DivNormalized` | mbedtls/bignum.c:1612-1647 | two limbs by a divisor with its top bit set: quotient and remainder satisfy the division identity |
| `LimbDivision.IntDivInt` | mbedtls/bignum.c:1561-1651 | quotient and remainder of u1:u0 by d whenever u1 < d; all ones on overflow and for d = 0 |
| `MpiDiv.FirstTrialIsHigh` | mbedtls/bignum.c:1709-1715 | no digit that passes the three-by-two test lies above the two-by-one estimate |
| `MpiDiv.TrialDigit` | mbedtls/bignum.c:1709-1732 | the loop leaves the largest digit whose product with the top two divisor limbs fits the top three limbs of the rest, at most four below the first estimate when one of the divisor's two top bits is set |
| `MpiDiv.TrialIsNear` | mbedtls/bignum.c:1734-1744 | that digit is never below the true one and at most one above it, although the divisor's top bit is one place low |
| `MpiDiv.DivDigit` | mbedtls/bignum.c:1709-1744 | one add-back suffices: the rest decreases by the stored digit times the aligned divisor and drops below it |
| `MpiDiv.TopDigitSmall` | mbedtls/bignum.c:1698-1704 | the fully shifted divisor goes into the dividend less than four times, so the counting loop stays in one limb |
| `MpiDiv.Normalise` | mbedtls/bignum.c:1687-1697 | both operands are shifted alike, leaving the divisor's top bit one place below the top of its limb |
| `MpiDiv.DivMpi` | mbedtls/bignum.c:1656-1769 | A = Q*B + R rounded toward zero for absent and aliased results; the quotient's sign and the remainder are each right if and only if a stated condition on signs and aliasing holds; a zero remainder of a real division is positive |
| `MpiDiv.TruncDivision` | mbedtls/bignum.c:1656-1769 | rounding toward zero leaves a remainder smaller than the divisor that is zero or has the dividend's sign |
| `MpiDiv.DivInt` | mbedtls/bignum.c:1774-1788 | the same for a machine word as divisor: a quotient stored over the dividend has the right sign, and the remainder is right, if and only if stated conditions on sign and size hold |
| `MpiDiv.ModMpi` | mbedtls/bignum.c:1793-1814 | the least residue, between 0 and the modulus, for a dividend of either sign; negative and zero moduli are refused |
| `MpiDiv.OneObjectNeverEnds` | mbedtls/bignum.c:1805-1809 | with result and modulus the same object, the reducing loops never come to their end: the value stays negative, or stays zero and equal to the modulus |
| `Montgomery.NewtonStep` | mbedtls/bignum.c:1883-1887 | a step doubles the number of correct low bits of the inverse |
| `Montgomery.MontgInit` | mbedtls/bignum.c:1878-1890 | for odd N the result times the low limb of N is -1 modulo the limb base |
| `Montgomery.AccumulatorBound` | mbedtls/bignum.c:1910-1922 | the accumulator stays below B + N at every limb, and below 2*b*N before a limb is dropped |
| `Montgomery.AddMultiples` | mbedtls/bignum.c:1915-1919 | both multiples are added at limb i with all carries ending inside the scratch vector |
| `Montgomery.MontAdvance` | mbedtls/bignum.c:1910-1922 | consuming a limb keeps the accumulator congruent to the consumed part of A times B over the radix |
| `Montgomery.ScratchCovers` | mbedtls/bignum.c:1926-1930 | the dummy subtraction always ends inside the scratch vector |
| `Montgomery.MontMul` | mbedtls/bignum.c:1895-1933 | the result is congruent to A*B/R modulo N and below N, also when B is A |
| `Montgomery.MontRed` | mbedtls/bignum.c:1938-1948 | the result is congruent to A/R modulo N and below N |
| `MpiExp.ProductInForm` | mbedtls/bignum.c:2091-2100 | the Montgomery product of two numbers in form is their product in form |
| `MpiExp.OutOfForm` | mbedtls/bignum.c:2143-2146 | the last reduction leaves the plain residue |
| `MpiExp.BuildTable` | mbedtls/bignum.c:2041-2064 | every table entry from half the window size up holds the power of its index |
| `MpiExp.WindowGrow` | mbedtls/bignum.c:2103-2113 | a bit joins the left-aligned window; a full window selects an entry that was filled |
| `MpiExp.TakeBit` | mbedtls/bignum.c:2084-2128 | each bit keeps accumulator, window, counters and state in step with the exponent bits read so far |
| `MpiExp.ReadBits` | mbedtls/bignum.c:2066-2128 | after the last limb the accumulator and the unfinished window stand for the whole exponent |
| `MpiExp.Remaining` | mbedtls/bignum.c:2133-2141 | the bits left in the window are consumed one by one |
| `MpiExp.ExpMagnitude` | mbedtls/bignum.c:1979-2146 | the power of a non-negative base modulo odd N, for every window size |
| `MpiExp.ExpMod` | mbedtls/bignum.c:1953-2165 | refused exactly for N <= 0, even N or a negative exponent; otherwise the stated power, and the cache holds R squared modulo N |
| `MpiExp.ExpResultIsPower` | mbedtls/bignum.c:2148-2152 | what is returned is congruent to the power and at most N; it is the least residue, or else N itself, by a condition on base, exponent parity and N that common divisors decide without any power being computed |
| `NumberTheory.DividesPower` | mbedtls/bignum.c:2148-2152 | N divides a power of the base if and only if dividing N by its common divisor with the base, at most as often as the exponent says, comes down to 1 |
| `MpiExp.ExpOfCoprime` | mbedtls/bignum.c:2148-2152 | a base coprime to N > 1 always gives the least residue |
| `MpiExp.ExpOfMultiple` | mbedtls/bignum.c:2148-2152 | a negative multiple of N with an odd exponent gives N itself |
| `MpiExp.ExpSquareFree` | mbedtls/bignum.c:2148-2152 | for N without square divisors these multiples are the only inputs with another result than the least residue |
| `NumberTheory.GcdScale` | mbedtls/bignum.c:2213-2214 | a common factor taken out of both numbers comes back as a factor of their gcd |
| `MpiGcd.GcdHalfDifference` | mbedtls/bignum.c:2201-2210 | half the difference of two odd numbers keeps their gcd |
| `MpiGcd.GcdRound` | mbedtls/bignum.c:2196-2211 | a round keeps the gcd and makes the sum of the two numbers smaller |
| `MpiGcd.GcdMpi` | mbedtls/bignum.c:2170-2221 | the gcd of the magnitudes, for every aliasing, with 0 for a zero second operand |
| `MpiGcd.GcdResultIsGcd` | mbedtls/bignum.c:2182-2214 | the result is the greatest common divisor if and only if the second operand is not zero or both are |
| `MpiGcd.HalveExact` | mbedtls/bignum.c:2308-2309 | halving an even coefficient of either sign is exact |
| `MpiGcd.EvenCoefficients` | mbedtls/bignum.c:2302-2306 | both coefficients become even without changing the combination, as one of the two operands is odd |
| `MpiGcd.HalveRow` | mbedtls/bignum.c:2300-2309 | a row U1*TA + U2*TB = TU is halved exactly |
| `MpiGcd.InvRound` | mbedtls/bignum.c:2298-2337 | both rows stay exact combinations, the pair stays coprime, the sum of the two numbers decreases, and one of them is odd and the other even |
| `MpiGcd.InvMod` | mbedtls/bignum.c:2263-2356 | for N > 1 succeeds only when A and N are coprime and refuses only when they are not; the inverse lies strictly between 0 and N |
| `NumberTheory.InverseMeansCoprime` | mbedtls/bignum.c:2278-2284 | no number that shares a factor with N has an inverse, so refusing it is right |
| `MpiGcd.InverseIsUnique` | mbedtls/bignum.c:2341-2345 | there is one inverse in that range at most |
| `MpiText.NumberConcat` | mbedtls/bignum.c:487-524 | digits behind others shift those by a power of the radix |
| `MpiText.ModInt` | mbedtls/bignum.c:1819-1873 | the remainder of a number of either sign in limb arithmetic, with its refusals; in the range 0 to b - 1 and exact for every divisor of at most half a limb or dividing the limb base |
| `MpiText.RightForAll` | mbedtls/bignum.c:1851-1862 | the loop divides right, for every number, if and only if the divisor is one of these |
| `MpiText.PutNibble` | mbedtls/bignum.c:495-496 | a hexadecimal digit or-ed into its limb adds its weight to the number |
| `MpiText.DigitOfLetters` | mbedtls/bignum.c:444-456 | the digits of both cases by their place in the alphabet |
| `MpiText.CaseDoesNotMatter` | mbedtls/bignum.c:444-456 | a text and its upper-case form are accepted alike and denote the same number |
| `MpiText.ReadString` | mbedtls/bignum.c:461-530 | accepts exactly texts whose digits belong to the radix, and the number read is the one the text denotes |
| `MpiText.SplitStep` | mbedtls/bignum.c:550-561 | the digits written so far and the number still to be written always make up the original number |
| `MpiText.WriteHelper` | mbedtls/bignum.c:535-569 | the digits moved to the front denote the magnitude; a short buffer is reported only when it really is too short |
| `MpiText.ByteOfLimb` | mbedtls/bignum.c:627-627 | the byte cut out of a limb is that byte of the whole number |
| `MpiText.WriteHex` | mbedtls/bignum.c:620-637 | two digits for every byte from the highest one in use down, denoting the magnitude; nothing for a number without limbs |
| `MpiText.DigitsFit` | mbedtls/bignum.c:588-607 | in the radices 2 to 15 the estimate leaves room for all digits, a sign and the terminator |
| `MpiText.BytesFit` | mbedtls/bignum.c:588-607 | the same for hexadecimal text, which always writes whole bytes |
| `MpiText.WriteString` | mbedtls/bignum.c:574-656 | the text written denotes the number under the meaning `ReadString` gives it, so reading it back gives the same integer; a buffer is refused exactly when it is below the estimate |
| `Rsa.DeducePrivateExponent` | mbedtls/rsa_internal.c:205-246 | a deduced D lies below lcm(P-1, Q-1) and inverts E modulo both P-1 and Q-1 (section 3.2 of RFC 8017) |
| `Rsa.LcmBoundary` | mbedtls/rsa_internal.c:226-238 | the modulus of the inversion is 1 only for P = Q = 2, the one input refused late |
| `Rsa.ValidateParams` | mbedtls/rsa_internal.c:339-458 | accepts exactly the parameters whose primes pass the test, if there is one, with P*Q = N, both exponents between 1 and N, and D*E = 1 modulo P-1 and Q-1, as far as they are given |
| `Rsa.ValidateCrt` | mbedtls/rsa_internal.c:251-334 | accepts exactly residues and coefficient that satisfy their congruences |
| `Rsa.DeduceCrt` | mbedtls/rsa_internal.c:460-492 | what is deduced is what `ValidateCrt` accepts, and is fully reduced |
| `Rsa.TrySplit` | mbedtls/rsa_internal.c:159-172 | a proper divisor shared with N splits N |
| `Rsa.DeducePrimes` | mbedtls/rsa_internal.c:70-199 | for exponents in range it succeeds if and only if N is odd and some base, in turn, reveals a proper divisor of N through one of its powers to (D*E - 1)/2^j, before a base coprime to N shows that D*E - 1 is no exponent of N; a success returns P and Q with P*Q = N and 1 < P < N. Orders of two that are 65535 modulo 2^16 are left out |
| `Rsa.RefusalMeans` | mbedtls/rsa_internal.c:147-190 | a refusal for odd N means that some base coprime to N has a power to D*E - 1 other than 1, or that no power of any base shares a proper divisor with N once 1 is added; the bases are the odd primes below 256, and 2 unless N is 1 modulo 8 |
| `Rsa.BasesAre` | mbedtls/rsa_internal.c:84-92 | those are exactly the bases the table and its starting point give |
| `SmallPrimes.Listed` | mbedtls/rsa_internal.c:84-92 | the table of primes holds all primes below 312, in order, by trial division |
| `Rsa.CounterPasses` | mbedtls/rsa_internal.c:152-152 | the 16-bit loop counter passes its bound, and not too early, if and only if the bound is not 65535 |
| `Rsa.ShortOrderMeans` | mbedtls/rsa_internal.c:119-152 | the orders the model rules out are exactly those whose loop counter never passes its bound |
| `AddressRanges.IsMergeable` | bootlib/e820.c:34-50 | for ranges inside the address space: exactly overlapping or contiguous, although the end is computed in 64 bits |
| `AddressRanges.IsOverlap` | bootlib/e820.c:65-81 | for ranges inside the address space: exactly sharing an address |
| `Allocator.RoundUpValue` | include/bootlib.h:380-390 | rounding gives the least multiple, or wraps to something smaller than its argument |
| `Allocator.HoleVerdict` | bootlib/alloc.c:254-282 | what the rounded start of a hole decides: a candidate, none in this hole, or none at all |
| `Allocator.CandidateSpelled` | bootlib/alloc.c:254-282 | what the search may answer, in plain numbers: aligned, below some entry, sharing nothing with any, and below 0xffffffff if asked |
| `Allocator.MergedRange` | bootlib/alloc.c:181-202 | merging computed in 64 bits covers exactly the old ranges and the new one, and keeps the table merged, unless it completes the address space |
| `Allocator.AllocTable.AllocInsert` | bootlib/alloc.c:120-139 | an entry is put at an index, the others move; a full table and a bad index are refused |
| `Allocator.AllocTable.AllocAdd` | bootlib/alloc.c:154-205 | the table stays sorted, disjoint and without neighbours that touch, and covers exactly the new range more; refused exactly when full and nothing touches |
| `Allocator.AllocTable.IsFreeMem` | bootlib/alloc.c:218-229 | true exactly when no address of the range is covered |
| `Allocator.AllocTable.FindFreeMem` | bootlib/alloc.c:245-286 | the lowest aligned free address below some entry (below 4 GB if asked), and failure only if there is none |
| `Allocator.AllocTable.SanityCheck` | bootlib/alloc.c:50-106 | passes exactly non-empty tables whose ranges are non-empty, inside the space and in order |
| `Allocator.AllocTable.Alloc` | bootlib/alloc.c:311-346 | grants the address the rules name and refuses only when there is none or the table is full; the invariant of the whole run holds again: covered is exactly what was granted, and no grant that was not forced overlaps an earlier one |
| `Allocator.ChosenOnce` | bootlib/alloc.c:311-346 | the rules name one address at most, and it is free unless the request was forced |
| `Allocator.RunContinues` | bootlib/alloc.c:331-345 | the history of grants stays exclusive, and stays what the table covers, over one more grant |
| `Sorting.SwapInversions` | bootlib/sort.c:34-40 | each swap removes exactly one inversion, which is why the passes end |
| `Sorting.BubbleSort` | bootlib/sort.c:24-43 | the first elements are a sorted stable rearrangement of what they were; the rest is untouched |
| `Sorting.StableSortIsUnique` | bootlib/sort.c:24-43 | there is only one such result |
| `MemoryMap.SortedIsOrderly` | bootlib/e820.c:122-123 | a sorted rearrangement of disjoint entries is in order and reports the same for every address |
| `MemoryMap.FusedKeeps` | bootlib/e820.c:125-142 | fusing a chain of entries that continue each other keeps the meaning of the map |
| `MemoryMap.FusedKeepsExactly` | bootlib/e820.c:132-142 | overlapping or not: fusing a run keeps the map if and only if every address of the run behind the fused entry is reported outside the run as well |
| `MemoryMap.Merge` | bootlib/e820.c:117-147 | the result is the stably sorted map with every run fused, whatever the entries; for disjoint entries it is in order, no two neighbours could still be merged, and every address is reported as before, or a map that says the same of every address ends with length 0 |
| `MemoryMap.MergedMeans` | bootlib/e820.c:125-142 | fusing all runs of a sorted disjoint map settles it and keeps its meaning, unless it is uniform over the whole space |
| `MemoryMap.UniformIsChain` | bootlib/e820.c:125-142 | only a map that covers the whole space uniformly fuses into one entry of length 2^64 |
| `MemoryMap.RunKeeps` | bootlib/e820.c:132-135 | a map that is one run keeps its meaning if and only if no entry ends behind the last one and they do not fill the space |
| `MemoryMap.OverlapIsLost` | bootlib/e820.c:132-135 | two entries that join keep their meaning if and only if the first does not reach farther than the second |
| `MemoryMap.OverlapsKept` | bootlib/e820.c:125-142 | a whole map in order of its bases, overlapping or not, keeps its meaning when merged if and only if what lies behind the end of every fused run is still reported by the merged map with the same type and attributes |
| `MemoryMap.EndsLastKept` | bootlib/e820.c:125-142 | which holds when in every run no entry ends behind the last one and no run fills the space |
| `Blacklist.TouchedPages` | include/bootlib.h:102-110 | the pages of a range are exactly those that hold one of its addresses |
| `Blacklist.BlacklistRuntimeMem` | include/bootlib.h:102-110 | exactly the pages the range touches become covered |
| `Blacklist.SanityCheck` | bootlib/e820.c:161-218 | accepts exactly maps with bases in order and no entry past the end of the space, and reports entries that end before their predecessor |
| `Blacklist.ToBlacklist` | bootlib/e820.c:235-279 | exactly the pages with an address that is not offered become covered, as far as the walk gets, among them every address of a handled entry whose type is neither 1 nor 0xffffffff; out of resources only with a full table |
| `Blacklist.CoveredBecause` | bootlib/e820.c:235-279 | in plain numbers: a page of 4096 bytes is covered if it holds an address no handled entry of type 1 or 0xffffffff offers, or one behind the map |
| `Blacklist.OnlyBecause` | bootlib/e820.c:235-279 | and what is covered only now lies in the page of such an address |
| `Blacklist.CompleteBan` | bootlib/e820.c:235-279 | for a map without empty entries that is every page with an address that is not available or bootloader memory |
| `Blacklist.CompleteExactly` | bootlib/e820.c:235-279 | with or without empty entries: every unavailable address is banned if and only if that holds between the last entry the walk handled and the end of the map |
| `Blacklist.CompleteWhenAligned` | bootlib/e820.c:235-279 | with both those bounds between pages: the ban is complete if and only if everything between them is available |
| `Blacklist.EmptyEntryHidesTheRest` | bootlib/e820.c:256-258 | an empty entry stops the walk from advancing, so reserved memory behind it stays in reach |
| `Blacklist.GrantsAreAvailable` | bootlib/e820.c:235-279 | where the ban is complete, every later grant that is not forced consists of addresses in entries of type 1 or 0xffffffff only |
| `Blacklist.HiddenIsGranted` | bootlib/e820.c:256-258 | where it is not, a request for memory that is not available is granted |
| `BlockHash.AbsorbMore` | mbedtls/sha256.c:299-321 | bytes that complete the waiting ones to a block make one more step; fewer only join them |
| `BlockHash.PaddingBlocks` | mbedtls/sha256.c:351-369 | the one or two blocks made up in the buffer absorb to the same as the padded message |
| `BlockHash.TwoHalves` | mbedtls/sha256.c:374-379 | writing the two halves of the length writes the length |
| `Sha256.ShortForms` | mbedtls/sha256.c:186-187 | the shortened choice functions are those of the standard |
| `Sha256.UnrolledRounds` | mbedtls/sha256.c:230-255 | eight rounds with rotating names, eight times over, are the 64 rounds of section 6.2.2 of FIPS 180-2 |
| `Sha256.WordsAndBytes` | mbedtls/sha256.c:63-81 | reading and writing a word are inverse to each other at any place of the data |
| `Sha256.Process` | mbedtls/sha256.c:203-262 | the default form is the compression of the standard for every block |
| `Sha256.ProcessSmall` | mbedtls/sha256.c:216-228 | so is the compact form with shifting registers |
| `Sha256.Context.Update` | mbedtls/sha256.c:276-324 | only the bytes so far count, not how they were split, for chunks of any length; the counter grows by the low 32 bits of the chunk length, so it stays the number of bytes if and only if the chunk is shorter than 2^32 |
| `Sha256.Context.Finish` | mbedtls/sha256.c:338-399 | the digest of everything passed in, padded with the number the counter holds: padding, absorbing, writing out (sections 5.1.1 and 6.2 of FIPS 180-2) |
| `Sha256.RightPadding` | mbedtls/sha256.c:351-379 | the message is padded as the standard says if and only if the counter is its length modulo 2^61 |
| `Sha256.LongChunk` | mbedtls/sha256.c:293-297 | one chunk of 2^32 bytes is padded as if it were empty, which is not the padding of the standard |
| `Sha256.Hash` | mbedtls/sha256.c:414-441 | the one-shot form gives the digest of the message below 2^32 bytes; for any length, what the length modulo 2^32 leads to |
| `Sha256Vectors.Digest256OfAbc` | mbedtls/sha256.c:457-493 | the SHA-256 digest of "abc", byte by byte, through all 64 schedule words and all 64 rounds |
| `Sha256Vectors.Digest224OfAbc` | mbedtls/sha256.c:457-477 | the SHA-224 digest of "abc" in the same way |
| `Sha256Tables.ConstantsAreRoots` | mbedtls/sha256.c:157-175 | every constant is the first 32 bits of the fractional part of the cube root of its prime, as inequalities between integers (section 4.2.2 of FIPS 180-2) |
| `Sha256Tables.StartIsRoots` | mbedtls/sha256.c:121-128 | SHA-256 starts from the first 32 fractional bits of the square roots of the first eight primes |
| `Sha256Tables.Start224IsRoots` | mbedtls/sha256.c:133-140 | SHA-224 starts from the second 32 fractional bits of the square roots of the next eight |
| `Md5.WordsAndBytes` | libmd5/md5.c:32-50 | reading and writing a word are inverse to each other at any place of the data |
| `Md5.ShortForms` | libmd5/md5.c:168-172 | the rewritten functions are F, G, H and I of RFC 1321 |
| `Md5.Transform` | libmd5/md5.c:183-266 | the 64 lines with their constants, rotations and words are the steps of section 3.4 of RFC 1321 |
| `Md5.Context.Update` | libmd5/md5.c:71-116 | only the bytes so far count, not how they were split; the two words count the bits modulo 2^64 |
| `Md5.Context.Final` | libmd5/md5.c:122-163 | the digest of everything passed in (sections 3.1 to 3.5 of RFC 1321), for messages of any length |
| `Md5.Compute` | libmd5/md5.c:306-326 | data of any length passed on in chunks has the digest of the whole |
| `Md5Vectors.DigestOfAbc` | libmd5/md5.c:183-266 | the digest of "abc", byte by byte, through all 64 steps with their constants, words and rotations (appendix A.5 of RFC 1321) |
| `DtFormat.WordBytes` | libfdt/libfdt_env.h:47-54 | a word is its four bytes, the first with the highest weight |
| `DtFormat.SampleBlock` | libfdt/fdt.h:53-58 | the bytes of a node with one property, as literals |
| `DtFormat.NextTagAt` | libfdt/fdt.c:157-209 | at the start of a token the step reads its tag and lands on the next token |
| `DtFormat.NextTagAdvances` | libfdt/fdt.c:157-209 | a step that succeeds moves forward, if and only if it is not over a property whose length word is 2^32 - 12 |
| `DtTree.FlattenInjective` | libfdt/fdt.c:157-209 | a tree is determined by its line of node starts, properties and node ends |
| `DtTree.Focus` | libfdt/fdt_rw.c:83-95 | replacing a subtree changes exactly its own stretch of the line |
| `DtBlob.Blob.OffsetPtr` | libfdt/fdt.c:135-155 | the wrapped 32-bit tests accept exactly the stretches inside the structure block |
| `DtBlob.Blob.NextTag` | libfdt/fdt.c:157-209 | the loop over a name and the arithmetic over a value compute the step of the format, for any bytes |
| `DtBlob.Blob.SpliceStruct` | libfdt/fdt_rw.c:83-95 | room is made or taken inside the structure block, everything behind moves along; refused exactly when it would not fit |
| `DtBlob.Blob.FindAddString` | libfdt/fdt_rw.c:127-153 | the offset names the string; it is appended exactly when no zero-terminated copy is there, and refused exactly when it does not fit |
| `DtBlob.Blob.DelLastString` | libfdt/fdt_rw.c:98-103 | undoes the string added last |
| `DtRead.NextNode` | libfdt/fdt.c:235-273 | stops at the next node of the line, or behind the end of the level the depth bounds |
| `DtRead.StopAmongChildren` | libfdt/fdt.c:275-301 | a walk among the children of a node meets the next child, something deeper, or the end, and passes no child |
| `DtRead.NodeEnd` | libfdt/fdt_wip.c:73-81 | the offset behind a node with everything below it |
| `DtRead.GetName` | libfdt/fdt_ro.c:300-336 | the name of a node |
| `DtRead.SubnodeOffset` | libfdt/fdt_ro.c:225-248 | the first child with a matching name; succeeds if and only if some child has the name itself, or begins with it and an at sign when the name has none |
| `DtRead.FindsByName` | libfdt/fdt_ro.c:14-32 | the child found is the first with that name, or with that name and a unit address |
| `DtRead.FirstSubnode` | libfdt/fdt.c:275-284 | the first child, if there is one |
| `DtRead.NextSubnode` | libfdt/fdt.c:286-301 | the next sibling, whatever lies below the child |
| `DtRead.FirstPropertyOffset` | libfdt/fdt_ro.c:338-346 | the first property, if the node has one |
| `DtRead.NextPropertyOffset` | libfdt/fdt_ro.c:348-354 | the next property of the same node, fillers being passed over |
| `DtRead.GetString` | libfdt/fdt_ro.c:34-98 | accepts exactly offsets inside the strings with a zero byte behind them, and returns the text up to it |
| `DtRead.GetProperty` | libfdt/fdt_ro.c:394-467 | offset and value of the first property of that name, and not found only if there is none |
| `DtEdit.Rebuilt` | libfdt/fdt_rw.c:83-95 | bytes that are the old ones around new tokens are the block of the edited token list |
| `DtEdit.AddProperty` | libfdt/fdt_rw.c:202-233 | a new property stands right behind the node's start; without room nothing has changed, a freshly added string included |
| `DtEdit.ResizeValue` | libfdt/fdt_rw.c:184-200 | the value has the new length and keeps its bytes as far as they fit; everything before stays in place |
| `DtProperties.SetProp` | libfdt/fdt_rw.c:276-289 | the tree with exactly that property set, in its place or in front; refused exactly when it does not fit, and then nothing has changed |
| `DtProperties.AppendProp` | libfdt/fdt_rw.c:291-316 | the tree with the value extended; refused exactly when it does not fit |
| `DtProperties.DelProp` | libfdt/fdt_rw.c:318-331 | the tree without the first property of that name |
| `DtProperties.SetThenGet` | libfdt/fdt_rw.c:276-289 | a property set is found again, and every other name is answered as before |
| `DtNodes.SetName` | libfdt/fdt_rw.c:235-256 | the tree with exactly that node renamed; refused exactly when it does not fit |
| `DtNodes.AddSubnode` | libfdt/fdt_rw.c:333-377 | the tree with an empty child in front of the others, and its offset; refused exactly when a child matches or there is no room |
| `DtNodes.AddedIsFound` | libfdt/fdt_rw.c:333-377 | a node added is found under its name, and under that name without its unit address; any other name is answered as before |
| `DtNodes.DelNode` | libfdt/fdt_rw.c:379-391 | the line loses exactly the stretch of the node |
| `DtNodes.ChildRemoved` | libfdt/fdt_rw.c:379-391 | which is the tree without that child |
| `DtReferences.SetPropInplacePartial` | libfdt/fdt_wip.c:13-31 | exactly the bytes written change and no offset does; refused when the value is too short, for places whose sum with the length stays below 2^32 |
| `DtReferences.RangeTestWraps` | libfdt/fdt_wip.c:26-27 | the 32-bit range test accepts everything inside the value, and what it accepts lies inside if and only if place and length add up to less than 2^32 |
| `DtReferences.PlacesAccepted` | libfdt/fdt_wip.c:26-27 | a list of places that passes that test place by place lies inside the value if and only if none is among the last four below 2^32 |
| `DtNop.NopProperty` | libfdt/fdt_wip.c:59-71 | the tree without the property, and every other token where it was |
| `DtNop.NopNode` | libfdt/fdt_wip.c:83-94 | the line without the node, and every other token where it was |
| `DtNop.Nopped` | libfdt/fdt_wip.c:51-57 | fillers in place of a stretch: the stretch is gone, everything before and behind keeps its offset |
| `DtOverlay.ApplyNode` | libfdt/fdt_overlay.c:557-602 | the target becomes the recursive union of the two nodes; its offset still denotes it although everything behind moved; succeeds whenever the stated room is left, and a failed call leaves exactly a merge that stopped on the way |
| `DtOverlay.ApplyProps` | libfdt/fdt_overlay.c:563-579 | the properties of the overlay node override those of the target |
| `DtOverlay.SetAllValue` | libfdt/fdt_overlay.c:563-579 | afterwards a name has the last value the overlay states, or else the one it had |
| `DtOverlay.MergeKeepsProps` | libfdt/fdt_overlay.c:581-599 | merging children leaves the node's own properties alone |
| `DtMerge.PathOffset` | libfdt/fdt_ro.c:250-293 | an absolute path leads where its names lead, each to the first child with that name or that name and a unit address; not found only if one leads nowhere |
| `DtMerge.JoinedApart` | libfdt/fdt_ro.c:250-293 | a path written as names behind slashes is read as those names |
| `DtMerge.ChildByPath` | libfdt/fdt_ro.c:250-293 | a child is found by a slash and its name, if none before it answers to that name |
| `DtMerge.NodeOffsetByPhandle` | libfdt/fdt_ro.c:681-704 | the first node of the line with the phandle, and not found only if no node has it |
| `DtMerge.GetTarget` | libfdt/fdt_overlay.c:58-100 | the node a fragment is for, by phandle or else by path, and an error exactly when there is none |
| `DtMerge.TargetOnce` | libfdt/fdt_overlay.c:58-100 | a fragment has one target at most |
| `DtMerge.MergeOverlay` | libfdt/fdt_overlay.c:619-649 | all fragments merged in order, each into its target in the tree as it then is; fails only at a fragment without target or without the stated room, the fragments before it merged and that one in part or not at all |
| `DtMerge.MergedOnce` | libfdt/fdt_overlay.c:619-649 | that determines the resulting tree |
| `DtMerge.TargetByPath` | libfdt/fdt_overlay.c:58-100 | a fragment with a "target-path" and no "target" is for the node that path leads to |
| `DtMerge.TargetByPhandle` | libfdt/fdt_overlay.c:25-48 | a fragment whose "target" is four bytes is for the first node with the phandle they write |
| `DtMerge.FragmentByName` | libfdt/fdt_overlay.c:632-642 | a fragment with a target and a child "__overlay__" leads to the tree with the two merged at the target |
| `DtMerge.OverlayReadable` | libfdt/fdt_overlay.c:632-642 | afterwards the target has every property of that child, with the last value given there |
| `DtMerge.MergedOne` | libfdt/fdt_overlay.c:619-649 | an overlay of one fragment merges that fragment |
| `DtReferences.LocalFixupsName` | libfdt/fdt_overlay.c:329-329 | the name of the fixups node, letter by letter |
| `DtPhandles.PhandleNames` | libfdt/fdt_ro.c:515-517 | the names of the two phandle properties, letter by letter |
| `DtPhandles.GetPhandle` | libfdt/fdt_ro.c:508-523 | the node's phandle, from either property, and zero without one |
| `DtPhandles.FindMaxPhandle` | libfdt/fdt_ro.c:114-140 | no node of the tree has a larger phandle, and some node has it unless it is zero |
| `DtPhandles.PhandleAddOffset` | libfdt/fdt_overlay.c:116-139 | one phandle property is moved in place; each refusal has its stated cause |
| `DtPhandles.AdjustNodePhandles` | libfdt/fdt_overlay.c:156-177 | all phandles of a subtree are moved, succeeding exactly when none would reach the reserved value or is malformed, refused with code 6 or 17 alone; no offset changes |
| `DtReferences.WordListed` | libfdt/fdt_overlay.c:254-282 | a cell listed once and apart from the others is moved exactly once |
| `DtReferences.WordUnlisted` | libfdt/fdt_overlay.c:254-282 | a word that overlaps no listed cell keeps its value |
| `DtReferences.WordCounted` | libfdt/fdt_overlay.c:254-282 | a word is moved once for every time it is listed, whatever else the list holds, as long as no other listed place overlaps it |
| `DtReferences.ListedOften` | libfdt/fdt_overlay.c:254-282 | it ends where a single move would leave it if and only if the moves beyond the first cancel modulo 2^32 |
| `DtReferences.UpdateNodeReferences` | libfdt/fdt_overlay.c:220-306 | every listed cell below a node is moved, succeeding exactly when everything the fixups name is there, refused with code 16 alone, for places four below 2^32; no offset changes |
| `DtReferences.UpdateLocalReferences` | libfdt/fdt_overlay.c:325-343 | the same from the root, and nothing to do without fixups, under the same limit on listed places |
| `DtRenumber.FixWord` | libfdt/fdt_overlay.c:220-306 | every word of every property below a node is moved as often as the fixups list it, on the way down through nodes matched by name |
| `DtRenumber.Unlisted` | libfdt/fdt_overlay.c:116-306 | where both passes succeed with a difference other than zero, no fixup lists a phandle: the first pass has moved such a fixup out of range |
| `DtRenumber.Renumbering` | libfdt/fdt_overlay.c:116-343 | after both passes every word of the whole overlay has moved once for each time the overlay's own fixups list it, and once if it is a phandle; the shape is as before |
| `DtRenumber.NothingMoves` | libfdt/fdt_overlay.c:116-343 | over a base without phandles the overlay stays as it is |
| `DtRenumber.PhandleMoved` | libfdt/fdt_overlay.c:116-343 | every node that had a phandle has it moved by the difference, at every path; the others still have none |
| `DtRenumber.ReferenceFollows` | libfdt/fdt_overlay.c:116-343 | a word anywhere that named an overlay node still names that node if it is listed once; if it is no phandle itself, if and only if the moves beyond the first cancel modulo 2^32 |
| `DtRenumber.UnlistedStays` | libfdt/fdt_overlay.c:116-343 | a word that is neither listed nor a phandle keeps its value |
| `DtRenumber.AboveTheBase` | libfdt/fdt_overlay.c:838-848 | moved by the base's largest phandle, a node of the overlay lies above every base phandle, and below the reserved one, if and only if it had a phandle other than zero |
| `DtRenumber.StillDistinct` | libfdt/fdt_overlay.c:838-848 | two overlay nodes share a phandle afterwards if and only if they did before |
| `DtRenumber.Renumber` | libfdt/fdt_overlay.c:838-848 | the first steps of an overlay's application lead to exactly that renumbered overlay, succeeding exactly when both passes can, with the code telling which one could not |
| `DtFinish.Create` | libfdt/fdt_sw.c:109-141 | an empty writer over a buffer of zero bytes; refused exactly for a short buffer or unknown flags, with the buffer as it was |
| `DtWriter.Writer.AddReservemapEntry` | libfdt/fdt_sw.c:188-206 | one more reserve entry, only before the map is finished and only if it fits |
| `DtWriter.Writer.FinishReservemap` | libfdt/fdt_sw.c:208-217 | ends the map with a zero entry and opens the structure block |
| `DtWriter.Writer.BeginNode` | libfdt/fdt_sw.c:219-234 | says one node start more, or exactly why not |
| `DtWriter.Writer.EndNode` | libfdt/fdt_sw.c:236-248 | says one node end more, or exactly why not |
| `DtWriter.Writer.AddString` | libfdt/fdt_sw.c:250-265 | the name stands in front of the others and earlier names keep their meaning, as offsets count from the end |
| `DtWriter.RoomTestWraps` | libfdt/fdt_sw.c:259-260 | the test for room with its wrapped difference accepts every name that fits, and what it accepts fits if and only if the strings are not longer than the whole blob |
| `DtWriter.Writer.FindAddString` | libfdt/fdt_sw.c:276-291 | the offset names the string; it is added exactly when no zero-terminated copy is there |
| `DtWriter.Writer.WriteProperty` | libfdt/fdt_sw.c:293-335 | says one property more, with and without a search for its name; refused exactly when it does not fit, and then the added name is gone again |
| `DtFinish.Relocate` | libfdt/fdt_sw.c:359-372 | every property's name offset is corrected, nothing else changes |
| `DtFinish.Finish` | libfdt/fdt_sw.c:337-384 | the finished blob says exactly what the calls said, in order, behind the same reserve entries, and ends with its strings |
| `DtCheck.CheckHeader` | libfdt/fdt.c:85-133 | each refusal has its cause and code: magic, versions, or a block that does not lie between the header and the end, as decided in 32 bits |
| `DtCheck.RsvTestWraps` | libfdt/fdt_ro.c:160-173 | the 32-bit test for a reserve entry accepts every entry inside the blob, and what it accepts lies inside if and only if its number is between 0 and 2^28 - 1 |
| `DtCheck.GetMemRsv` | libfdt/fdt_ro.c:175-187 | the entry with that number; refused exactly when the blob itself is, or when the entry is not inside it |
| `DtCheck.NumMemRsv` | libfdt/fdt_ro.c:189-199 | the number of entries before the first one of size zero; refused exactly when no entry inside the blob has size zero |
| `DtCheck.ReserveReadBack` | libfdt/fdt_ro.c:175-187 | every reserve entry is read back as the writer wrote it |
| `DtCheck.CountStopsAtZero` | libfdt/fdt_ro.c:189-199 | a map that was ended is counted up to its first entry of size zero, which may come before the end |
| `DtCheck.AcceptsWellFormed` | libfdt/fdt_check.c:37-75 | of all byte strings the walk over the tokens accepts exactly the well-formed blocks with a balanced line |
| `DtCheck.CheckTokens` | libfdt/fdt_check.c:37-75 | the loop makes that walk over any bytes: it succeeds exactly on well-formed balanced blocks, unless it comes to a property length of at least 2^32 - 12 |
| `DtCheck.CheckFull` | libfdt/fdt_check.c:13-75 | succeeds exactly when header, size, reserve map and tokens are in order, with the same exception; everything wrong before the tokens has its code |
| `DtCheck.FinishedPasses` | libfdt/fdt_check.c:13-75 | a finished blob passes the full check if and only if every node entered was left again; its reserve entries are read back as written |
| `DtCheck.TreesAreBalanced` | libfdt/fdt_check.c:37-75 | which the line of a tree always satisfies |

## Left out

- MpiExp.ExpMod: requires a base with at least one limb and, when a filled cache is passed, that it holds R squared modulo N, as the code does.
- MpiText.ModInt: requires a limb to read when the divisor is 2.
- MpiText.WriteString: requires at least one limb in radix 2, where the code reads limb 0; `size_t` is taken to be as wide as a limb.
- MpiDiv.ModMpi: result and modulus are different objects; with the same one the reducing loops never end, as `OneObjectNeverEnds` says of the values they go through.
- Rsa.DeducePrimes: orders of two in D*E - 1 that are 65535 modulo 2^16 are left out, where the loop need not end; how often the candidate cannot be allocated is a parameter.
- Rsa.DeduceCrt: the outputs are other objects than P, Q and D.
- Rsa.ValidateParams: the answers of the primality test, which needs a random source, are a parameter.
- Blacklist.ToBlacklist: states the exact ban when some address stays free, given as a ghost parameter; otherwise the table would become the whole address space.
- Blacklist.BlacklistRuntimeMem: ranges that run past the address space or would complete the table are left out.
- Allocator.AllocTable.AllocAdd: ranges lie inside the address space.
- Allocator.AllocTable.IsFreeMem: the same.
- Allocator.AllocTable.Alloc: fixed and forced ranges have to lie inside the address space; the search is the 64-bit build's.
- DtFormat.NextTagAt: property values are shorter than 2^31, as in every token of a valid blob.
- DtWriter.Writer.WriteProperty: a new name and the strings so far are no longer than the whole blob, where the code's subtraction would wrap.
- DtWriter.Writer.AddString: the same.
- DtWriter.Writer.FindAddString: the same.
- DtCheck.CheckTokens: is left where it meets a property length of at least 2^32 - 12; what the code does from there is not followed.
- DtCheck.CheckFull: header fields are a value beside the blob instead of bytes in it; headers of the last version, and the structure block in front of the strings.
- DtCheck.GetMemRsv: entry numbers outside 0 to 2^28 - 1 that pass the wrapped test are left out, as the code then reads outside the blob.
- DtFinish.Finish: hands the buffer over to a second object instead of writing the new header into the same bytes.
- DtReferences.SetPropInplacePartial: places whose sum with the length wraps are left out, as the code then writes outside the value.
- DtReferences.UpdateNodeReferences: the fixups must not name their own node, where the code would change the lists it is reading, and listed places must not wrap when four is added.
- DtReferences.UpdateLocalReferences: the same, and the root lies at offset 0.
- DtRenumber.Renumber: the same.
- DtMerge.GetTarget: absolute paths only.
- DtMerge.MergeOverlay: absolute paths only.
- DtMerge.PathOffset: absolute paths only; aliases are not modelled.
- Limb vectors are sequence fields of the objects, so two objects never share limbs; the cached R squared is copied by value where the code shares it.
- Header fields (sizes, offsets, the writer's magic) are fields of the blob and writer objects instead of bytes of the buffer; versions below 17 and blocks in another order are not modelled.
- Values passed to the editing calls lie outside the blob.
- The memory map's 32-bit halves of bases and lengths are whole 64-bit words here.
- `fdt_open_into`, `fdt_pack`, `fdt_resize`, editing of the reserve map, aliases, string lists and compatible searches of libfdt.
- `__fixups__` against the base tree's symbols, the update of symbol paths, and the driver that runs the overlay steps one after the other.
- Binary import and export, file access, random fill, prime generation and primality, constant-time comparisons and zeroisation of bignums; the variants with double-width limbs.
- Hash self tests and the dispatch layer above the hashes.
- Firmware, disks, consoles, logging and the other parts of the loader that talk to devices.
