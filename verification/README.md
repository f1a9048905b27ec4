# Verified models of NuttX arithmetic, ciphers, key storage, decoding and loading

This project models, in Dafny, the parts of NuttX whose correctness rests on arguments a
reader does not see in one function: multi-word arithmetic that works by carries that must
not be lost, a bitsliced block cipher, a key store that must look like one map while it moves
keys between slots and flash, a decoder that works in place across buffers, an id generator
that must not repeat itself, and a program loader that calls itself. The proofs are about the
code as it is written: the same loops, branches, constants and error codes, with arrays and
records updated in place where the source updates them in place.

`dafny verify dfyconfig.toml` checks everything.

| files | what they model |
|---|---|
| Arith, Bits, Limbs, NumberTheory, Machine, Wrappers | integers, bit operators, digit sequences, congruence, machine types |
| Vli, VliProduct, VliModMult, VliReduce, VliInverse | crypto/ecc.c: multi-word integers of any number of 64-bit digits, and the secp256r1 reduction |
| Bignum, BignumShift, BignumDivide, BignumPower, BignumGcd, BignumEuclid, BignumInverse, BignumRoot | crypto/bn.c: sign-magnitude numbers of any array size |
| Poly1305Field, Poly1305, Poly1305Tag | crypto/poly1305.c, and section 2.5 of RFC 8439 read directly |
| Curve25519Mul, Curve25519 | crypto/curve25519.c: the field modulo 2^255 - 19 |
| AesByte, AesBlock, AesSlice, AesPlace, AesLayers, Aes, AesEcb, AesKey, AesFips | crypto/aes.c: FIPS 197 by layers and byte by byte, the bitsliced circuit, and what ties them |
| KeyWrap, Endian | crypto/key_wrap.c: RFC 3394, on registers and on big-endian numbers |
| KeyStore, KeyStoreRun, KeyOrder, KeyCache, KeyManager | crypto/cryptosoft.c: the software key manager as two maps, its runs, the order of its slots, the slots, its requests |
| PcmSubsample | audio/pcm_decode.c |
| Idgen | crypto/idgen.c |
| ArgList, Shebang, LoadSteps, ScriptLoader | binfmt/script.c, binfmt/binfmt_loadmodule.c, binfmt/binfmt_copyargv.c |

The clock, random numbers, flash success, memory allocation and the answers of other loaders
are parameters. Sizes that the configuration sets (digits, array words, slots, buffer sizes)
are constants about which only what the code needs is known.

## Model

| member | source | states |
|---|---|---|
| `Vli.Cmp` | crypto/ecc.c:226-243 | the sign of the difference of the two numbers |
| `Vli.NumDigits` | crypto/ecc.c:174-188 | the number of digits below which the value lies, the last of them nonzero |
| `Vli.NumBits` | crypto/ecc.c:192-210 | the bit length of the number |
| `Vli.Add` | crypto/ecc.c:285-304 | the digits and the carry together are the sum, also when an operand is the result |
| `Vli.Sub` | crypto/ecc.c:308-327 | the digits and the borrow together are the difference, also when an operand is the result |
| `Vli.Lshift` | crypto/ecc.c:249-264 | the digits and the bits shifted out together are the number times 2^shift |
| `Vli.Rshift1` | crypto/ecc.c:268-281 | the number is halved |
| `Vli.ModAdd` | crypto/ecc.c:513-526 | the sum modulo the modulus, for reduced operands |
| `Vli.ModSub` | crypto/ecc.c:532-546 | the difference modulo the modulus, for reduced operands |
| `VliProduct.ColumnsProduct` | crypto/ecc.c:333-361 | the sum of all columns of digit products is the product of the two numbers |
| `VliProduct.Mult` | crypto/ecc.c:333-361 | the exact double-length product for any number of digits: nothing is lost from the three-word accumulator |
| `VliProduct.Square` | crypto/ecc.c:365-396 | the exact square, with each mixed term doubled once, carry included |
| `VliReduce.TermsCongruent` | crypto/ecc.c:635-725 | the nine signed terms of FIPS 186-4, appendix D.2.3, add up to the product modulo p |
| `VliReduce.MmodFast` | crypto/ecc.c:635-725 | exactly product mod p for every 512-bit product; both correction loops end |
| `VliInverse.InvHalve` | crypto/ecc.c:842-940 | halving a and u, with the modulus added to an odd u, keeps u times the input congruent to a |
| `VliInverse.InvSubtract` | crypto/ecc.c:842-940 | subtracting the smaller of a and b, and v from u, keeps both congruences and the gcd |
| `VliInverse.ModInv` | crypto/ecc.c:842-940 | for every odd modulus above one the loop ends with a result below it; result * input is congruent to gcd(input, modulus); zero gives zero |
| `VliModMult.ShiftInBounds` | crypto/ecc.c:1409-1494 | the aligned modulus is written inside its array if and only if it is shifted by at most 64n bits |
| `VliModMult.ReducedOperandsFit` | crypto/ecc.c:1409-1494 | operands below the modulus never shift it further than that |
| `VliModMult.TopBitModulusFits` | crypto/ecc.c:1409-1494 | a modulus with its top bit set is never shifted further than that |
| `VliModMult.ShiftOutOfBoundsExample` | crypto/ecc.c:1409-1494 | operands and a modulus for which the write lands past the array |
| `VliModMult.GuardExact` | crypto/ecc.c:1409-1494 | the loop condition, which looks at the bit count and the low half, says exactly whether subtractions are left |
| `VliModMult.Loop` | crypto/ecc.c:1409-1494 | the shift-and-subtract loop over split halves leaves the residue |
| `VliModMult.ModMult` | crypto/ecc.c:1409-1494 | left * right mod the modulus, whenever the aligned modulus is in bounds |
| `Bignum.AddAbs` | crypto/bn.c:389-405 | the words and the carry together are the sum of magnitudes, whatever is aliased |
| `Bignum.SubAbs` | crypto/bn.c:412-437 | the words and the borrow together are the difference of magnitudes |
| `Bignum.Cmp` | crypto/bn.c:692-724 | the sign of the difference for canonical numbers, and the exact answer when a zero is negative |
| `Bignum.SumExact` | crypto/bn.c:165-195 | what is kept of a sum is the sum of the values if and only if that fits the array |
| `Bignum.AddSub` | crypto/bn.c:165-195 | the sign and the magnitude, as far as the array holds it, for every sign combination, aliasing and overflow |
| `Bignum.Add` | crypto/bn.c:384-387 | the signed sum if and only if it fits, and exactly what is kept otherwise; canonical operands give a canonical sum that fits |
| `Bignum.Sub` | crypto/bn.c:407-410 | the signed difference if and only if it fits, and exactly what is kept otherwise |
| `Bignum.FromInt` | crypto/bn.c:217-242 | the number of a 32-bit integer |
| `BignumShift.Lshift` | crypto/bn.c:537-567 | magnitude times 2^nbits, by whole words and single bits together, less exactly the bits that leave the top |
| `BignumShift.Rshift` | crypto/bn.c:569-599 | magnitude divided by 2^nbits |
| `BignumDivide.Mul` | crypto/bn.c:439-480 | the product modulo the capacity with a canonical sign, and the exact product when it fits |
| `BignumDivide.ValOr` | crypto/bn.c:664-676 | OR of the words is OR of the values |
| `BignumDivide.TopWord` | crypto/bn.c:482-535 | the test on the top word says exactly whether doubling overflows |
| `BignumDivide.FreshBit` | crypto/bn.c:482-535 | OR with a power of two that is not in the quotient adds it |
| `BignumDivide.Div` | crypto/bn.c:482-535 | for every nonzero divisor the magnitude of the quotient and its sign, also when the shifted divisor would overflow |
| `BignumDivide.DivModEnds` | crypto/bn.c:614-648 | the last loop ends if and only if the divisor is positive, or the dividend is, or it is a nonzero multiple of the divisor |
| `BignumDivide.DivMod` | crypto/bn.c:614-648 | quotient and residue for every sign of dividend and divisor for which the code ends |
| `BignumDivide.ResidueProper` | crypto/bn.c:614-648 | the residue lies in [0, b) if and only if the dividend is not a negative zero |
| `BignumDivide.NegativeZeroQuotient` | crypto/bn.c:482-535 | the code itself makes a negative zero, whose residue modulo three comes out as three |
| `BignumDivide.Mod` | crypto/bn.c:601-612 | the residue that bignum_divmod gives |
| `BignumPower.PowModFaster` | crypto/bn.c:867-899 | a^b mod n for every exponent, the base reduced or not |
| `BignumGcd.Lsb` | crypto/bn.c:901-921 | the number of trailing zero bits, zero for zero |
| `BignumGcd.GcdStep` | crypto/bn.c:923-975 | halving the difference of two odd numbers keeps their common divisors |
| `BignumGcd.Gcd` | crypto/bn.c:923-975 | the greatest common divisor for all arguments, zeros included, and its sign |
| `BignumEuclid.SideHalve` | crypto/bn.c:977-1085 | halving keeps t = c1 * a + c2 * b and the bound on the coefficients |
| `BignumEuclid.SideSubtract` | crypto/bn.c:977-1085 | subtracting one side from the other keeps both combinations |
| `BignumEuclid.HalvingsBounded` | crypto/bn.c:977-1085 | there are fewer halvings than twice the bits of the modulus, which bounds the coefficients |
| `BignumEuclid.InverseWhen` | crypto/bn.c:977-1085 | the run ends with the inverse of a coprime argument as long as no sum of it is too large for the arrays |
| `BignumEuclid.HeadroomFits` | crypto/bn.c:977-1085 | none is when the array holds (4 * bits + 4) times the modulus |
| `BignumEuclid.InverseFails` | crypto/bn.c:977-1085 | for every array size: two is coprime to the largest number, and its inverse comes out as zero |
| `BignumInverse.InvMod` | crypto/bn.c:977-1085 | for all arguments: rejects n <= 1 and arguments that are not coprime and leaves c alone then; otherwise 0 <= c < n, c is the residue of what the run computes, overflows included, and so a * c is 1 modulo n when no sum overflows; all loops end |
| `BignumRoot.Inc` | crypto/bn.c:363-382 | one more, modulo the capacity |
| `BignumRoot.Dec` | crypto/bn.c:342-361 | one less, modulo the capacity |
| `BignumRoot.BisectedRoot` | crypto/bn.c:815-850 | while no square is cut off, the bisection ends at the integer square root |
| `BignumRoot.RootFails` | crypto/bn.c:815-850 | the first argument whose root comes out wrong: twice the square root of the capacity, less two |
| `BignumRoot.RootWhen` | crypto/bn.c:815-850 | the root of one argument is right if and only if no square that does not fit looks small enough on the way |
| `BignumRoot.RootExact` | crypto/bn.c:815-850 | every argument below a bound gets its integer square root if and only if the bound is at most that argument |
| `BignumRoot.SquareRoot` | crypto/bn.c:815-850 | the bisection with squares cut to the array, for every argument, and for each whether it is the root; zero for negative ones |
| `Poly1305Field.FoldedProduct` | crypto/poly1305.c:79-190 | the five columns with the high limbs times five are the product modulo 2^130 - 5 |
| `Poly1305Field.Multiply` | crypto/poly1305.c:79-190 | no 64-bit overflow for limbs within their bounds, and the product modulo 2^130 - 5 |
| `Poly1305Field.CarryChain` | crypto/poly1305.c:79-190 | limbs back within their bounds, same residue |
| `Poly1305.State.Blocks` | crypto/poly1305.c:79-190 | the accumulator of RFC 8439 over all whole blocks |
| `Poly1305.AccumulateConcat` | crypto/poly1305.c:192-246 | absorbing a message in two parts at a block boundary is absorbing it whole |
| `Poly1305.State.Update` | crypto/poly1305.c:192-246 | appends the input to the message, for every split into calls |
| `Poly1305.FullCarry` | crypto/poly1305.c:248-370 | every limb below 2^26, same residue |
| `Poly1305.Select` | crypto/poly1305.c:248-370 | the masked choice gives the unique residue below 2^130 - 5 |
| `Poly1305.PackOr` | crypto/poly1305.c:248-370 | OR of the shifted limbs is their sum: nothing overlaps |
| `Poly1305.Pack` | crypto/poly1305.c:248-370 | the four words hold the residue modulo 2^128 |
| `Poly1305.State.Finish` | crypto/poly1305.c:248-370 | the tag of RFC 8439, section 2.5, of the key and of everything that was appended; the state is cleared |
| `Poly1305Tag.AccumulatePolynomial` | crypto/poly1305.c:79-190 | the accumulator is the polynomial at r whose coefficients are the blocks, the first with the highest power, modulo 2^130 - 5 |
| `Poly1305Tag.ClampBytes` | crypto/poly1305.c:50-58 | the masks clear the top four bits of bytes 3, 7, 11 and 15 and the low two of bytes 4, 8 and 12 of r, and nothing else |
| `Curve25519Mul.ProductValue` | crypto/curve25519.c:502-653 | the nineteen columns of the ten-limb product, with their doublings, are the product |
| `Curve25519Mul.ProductFits` | crypto/curve25519.c:502-653 | for loose limbs every column, and its fold by nineteen, fits 64 bits |
| `Curve25519Mul.CarryColumns` | crypto/curve25519.c:502-653 | the carry chain gives tight limbs of the same residue |
| `Curve25519Mul.Mul` | crypto/curve25519.c:502-653 | tight limbs of the product modulo 2^255 - 19, no overflow anywhere |
| `Curve25519Mul.Sqr` | crypto/curve25519.c:672-790 | tight limbs of the square, from the shared products of the squaring code |
| `Curve25519.Add` | crypto/curve25519.c:412-446 | loose limbs of the sum of tight ones |
| `Curve25519.Sub` | crypto/curve25519.c:457-491 | loose, non-negative limbs of the difference plus twice the prime |
| `Curve25519.Cmovznz32` | crypto/curve25519.c:205-210 | chooses without branching |
| `Curve25519.CarriedUnique` | crypto/curve25519.c:212-344 | carried limbs are determined by their value |
| `Curve25519.Freeze` | crypto/curve25519.c:212-344 | the unique carried representative below 2^255 - 19 |
| `Curve25519.ToBytes` | crypto/curve25519.c:346-383 | the 32 little-endian bytes of that representative |
| `Curve25519.FromBytes` | crypto/curve25519.c:86-138 | carried limbs of the low 255 bits |
| `Curve25519.RoundTrip` | crypto/curve25519.c:86-383 | from bytes of to bytes is the same field element, reduced |
| `Curve25519.BytesRoundTrip` | crypto/curve25519.c:86-383 | to bytes of from bytes is the identity if and only if the bytes are below 2^255 - 19 |
| `Curve25519.LooseInvert` | crypto/curve25519.c:802-877 | z^(2^255 - 21) through the whole chain of squarings |
| `AesByte.SubByteIsInverse` | crypto/aes.c:100-378 | the S-box circuit is the affine image of the inverse in GF(2^8), as FIPS 197 defines it |
| `AesByte.SubUndo` | crypto/aes.c:673-737 | the inverse S-box circuit undoes the S-box circuit |
| `AesByte.SubRedo` | crypto/aes.c:673-737 | and the other way round |
| `AesByte.MixUndo` | crypto/aes.c:755-818 | unmixing a mixed column gives the column |
| `AesByte.MixRedo` | crypto/aes.c:600-644 | mixing an unmixed column gives the column |
| `AesBlock.CipherUndo` | crypto/aes.c:826-844 | the inverse cipher undoes the cipher, for every key schedule and round count |
| `AesBlock.CipherRedo` | crypto/aes.c:651-669 | the cipher undoes the inverse cipher |
| `AesSlice.SboxLane` | crypto/aes.c:100-378 | the word circuit is the byte circuit in each of the 32 lanes |
| `AesSlice.InvSboxLane` | crypto/aes.c:673-737 | the same for the inverse circuit |
| `AesSlice.MixRegroup` | crypto/aes.c:600-644 | the terms of the code are FIPS 197 multiples of the column bytes, regrouped |
| `AesSlice.InvMixRegroup` | crypto/aes.c:755-818 | the same for the inverse |
| `AesSlice.MixLane` | crypto/aes.c:600-644 | each lane becomes the mixed byte of its column |
| `AesSlice.InvMixLane` | crypto/aes.c:755-818 | each lane becomes the unmixed byte of its column |
| `AesPlace.OrthoInvolution` | crypto/aes.c:388-416 | the transposition undoes itself |
| `AesPlace.OrthoPlace` | crypto/aes.c:388-416 | it puts every byte of both blocks in its lane, and back |
| `AesLayers.ShiftBlock` | crypto/aes.c:579-593 | the masked word shifts are ShiftRows and its inverse on both blocks |
| `AesLayers.SboxBlock` | crypto/aes.c:100-378 | both circuits are SubBytes and its inverse on both blocks |
| `AesLayers.MixBlock` | crypto/aes.c:600-644 | both mixings are MixColumns and its inverse on both blocks |
| `Aes.BitsliceEncrypt` | crypto/aes.c:651-669 | both blocks go through the cipher of FIPS 197, section 5.1 |
| `Aes.BitsliceDecrypt` | crypto/aes.c:826-844 | both blocks go through the inverse cipher of section 5.3 |
| `AesEcb.EncryptEcb` | crypto/aes.c:858-906 | every block becomes its cipher text: a trace of states by section 5.1 of FIPS 197, byte by byte, leads from one to the other; in place or not, odd numbers of blocks included; the rest of the buffer stays |
| `AesEcb.DecryptEcb` | crypto/aes.c:908-956 | every block becomes the block of which it is, by that trace, the cipher text |
| `AesEcb.EcbUndo` | crypto/aes.c:858-956 | decryption of an encrypted buffer is the buffer, for every expanded key, round count and number of blocks |
| `AesFips.CipherEnciphers` | crypto/aes.c:650-674 | a full round makes of each byte the sum of two, three, one and one times the S-box values of four bytes of the state before, and the key byte; the last round leaves the multiples out |
| `AesKey.KeyExpands` | crypto/aes.c:444-501 | byte r of word i of the round keys is byte r of word i - nk plus byte r of word i - 1, or plus the S-box value of its byte r + 1 and a power of x where i is a multiple of nk, or plus the S-box value of its byte r for long keys |
| `AesKey.KeyWords32` | crypto/aes.c:444-501 | the words of the key expansion of FIPS 197, section 5.2, whose bytes follow the recurrence of AesKey.KeyExpands |
| `AesKey.Context.SetKey` | crypto/aes.c:846-856 | for the three key lengths every word of the round keys in the context, for both blocks, follows the byte recurrence of section 5.2 of FIPS 197; -1 for other lengths |
| `KeyWrap.Encrypt` | crypto/aes.c:958-961 | one block, in place or not |
| `KeyWrap.Decrypt` | crypto/aes.c:963-966 | one block, in place or not |
| `KeyWrap.StepUndo` | crypto/key_wrap.c:119-147 | undoing step t of RFC 3394 gives the registers before it |
| `KeyWrap.RoundTrip` | crypto/key_wrap.c:56-156 | unwrapping a wrapped key passes the check and gives the key, for any number of blocks |
| `KeyWrap.AcceptsOnlyWrapped` | crypto/key_wrap.c:104-156 | the check passes if and only if the data is the wrapping of some key, which is then the one returned |
| `KeyWrap.CounterValue` | crypto/key_wrap.c:85-87 | the eight bytes that step t adds to A stand, the highest first, for t, for every t below 2^64 |
| `KeyWrap.TraceIsRfc` | crypto/key_wrap.c:56-102 | the registers go through the 6n steps of section 2.2.1 of RFC 3394: step n * j + i adds its number to the upper half of the cipher text and leaves the lower half in register i |
| `KeyWrap.Wrap` | crypto/key_wrap.c:56-102 | the result is the wrapping by RFC 3394, stated on numbers, of the n blocks; source and destination may overlap; nothing outside is touched |
| `KeyWrap.Unwrap` | crypto/key_wrap.c:104-156 | zero exactly when the check value is right, and then the data is the wrapping by RFC 3394 of what is returned; nothing outside is touched |
| `KeyStore.OthersKept` | crypto/cryptosoft.c:281-339 | an operation leaves another key as it was if and only if it does not drive an empty key out of its slot |
| `KeyWrap.WrapUnwrap` | crypto/key_wrap.c:56-156 | wrap and then unwrap, through any buffers: zero, and the bytes of the key |
| `KeyStore.EmptyKeyDropped` | crypto/cryptosoft.c:281-304 | two imports, the second of which drops the empty key of the first |
| `KeyStore.LongImportLost` | crypto/cryptosoft.c:412-443 | an import that answers zero and whose key is not the live one |
| `KeyStore.ImportedIsFree` | crypto/cryptosoft.c:349-469 | an imported key whose id can be reserved and cannot be deleted |
| `KeyStore.OldPublicInFlash` | crypto/cryptosoft.c:559-615 | an import and a generated pair after which flash holds the old public key |
| `KeyStore.OwnKept` | crypto/cryptosoft.c:479-763 | export, save and unload keep their own key; after save flash alone holds it, after unload the slot is gone |
| `KeyStore.ImportTakes` | crypto/cryptosoft.c:412-443 | the imported key is the live one if and only if it fits a slot or the id is not cached |
| `KeyStore.LoadKeeps` | crypto/cryptosoft.c:701-729 | load keeps the live key if and only if it is the one in flash |
| `KeyStore.LoadUndoesImport` | crypto/cryptosoft.c:701-729 | import, save, import, load: the second import is gone |
| `KeyStore.FlashAnswers` | crypto/cryptosoft.c:349-469 | reserve and delete answer for the live keys if and only if every cached id is in flash |
| `KeyStore.SurvivesFlash` | crypto/cryptosoft.c:281-304 | a key driven out of its slot comes back by export if and only if it is not a prefix of the placeholder |
| `KeyStore.SurvivesUnload` | crypto/cryptosoft.c:739-763 | a key that is unloaded comes back if and only if it is empty or not such a prefix |
| `KeyStore.LoadedPlaceholder` | crypto/cryptosoft.c:701-729 | a reserved id that is loaded exports the placeholder, and without the load it exports nothing |
| `KeyStore.LoadProper` | crypto/cryptosoft.c:701-729 | load puts a real key into a slot if and only if flash held one |
| `KeyStore.PairInFlash` | crypto/cryptosoft.c:559-615 | flash ends with the new public key if and only if making room for the private key did not write the old one back over it; the live public key is new if and only if it fits a slot or was not cached |
| `KeyStore.ImportBits` | crypto/cryptosoft.c:412-443 | the other flags of an imported key are those of the key that had its slot |
| `KeyStore.ExportCaches` | crypto/cryptosoft.c:479-549 | export brings a key from flash into a slot if and only if it is shorter than a slot |
| `KeyStoreRun.ViewStep` | crypto/cryptosoft.c:281-763 | one request changes slots and flash as it changes one map, and answers as the map, and which keys are saved, allow |
| `KeyStoreRun.AnswersOpen` | crypto/cryptosoft.c:281-763 | what the map leaves open is open: stores that look alike and answer delete, reserve and save differently |
| `KeyStoreRun.OneMap` | crypto/cryptosoft.c:281-763 | over every run of every request, whatever leaves the slots, the keys are those of one map; import, export of a key, load and both generates answer exactly by it, reserve and delete do for saved keys, save and unload succeed only for its keys |
| `KeyOrder.UsedFirst` | crypto/cryptosoft.c:316-321 | a request for one key that succeeds and leaves the key in a slot puts it first in line |
| `KeyOrder.FailedStays` | crypto/cryptosoft.c:281-763 | a request that fails, other than a delete, changes neither the order nor what the slots hold |
| `KeyOrder.StaysCached` | crypto/cryptosoft.c:281-321 | over every run a key that was used, and not deleted or unloaded since, keeps its slot while fewer others came to the front than there are slots; save and unload then succeed |
| `KeyOrder.CrowdBound` | crypto/cryptosoft.c:281-321 | those others are at most the other ids that were requested and the slots that were given up |
| `KeyOrder.StaysExactly` | crypto/cryptosoft.c:281-339 | for imports and deletes of other keys: the key keeps its slot if and only if the crowd is smaller than the number of slots |
| `KeyOrder.FreeSlotsWait` | crypto/cryptosoft.c:281-339 | one other key, imported and deleted as often as there are slots, drives a key out |
| `KeyOrder.ImportStays` | crypto/cryptosoft.c:281-443 | over every run an imported key answers to save and unload until it is deleted or unloaded or enough others were requested |
| `KeyCache.CacheStore` | crypto/cryptosoft.c:281-339 | writing a slot changes what the slots hold for two ids at most |
| `KeyCache.CachePromoted` | crypto/cryptosoft.c:316-321 | moving a slot to the front changes no key and keeps ids distinct |
| `KeyCache.Context.constructor` | crypto/cryptosoft.c:893-911 | every slot free |
| `KeyCache.Context.Write` | crypto/cryptosoft.c:112-139 | flash holds the key with its flags; an empty key is refused |
| `KeyCache.Context.GetCacheData` | crypto/cryptosoft.c:281-304 | the slot of the id, or else the last slot, with its key written back |
| `KeyCache.Context.Promote` | crypto/cryptosoft.c:316-321 | the slot comes first and the others keep their order; the same keys are held |
| `KeyCache.Context.Alloc` | crypto/cryptosoft.c:387-402 | reserves the first id that flash does not hold |
| `KeyCache.Context.Reserve` | crypto/cryptosoft.c:349-377 | the placeholder is written for an id that flash does not hold |
| `KeyCache.Context.Import` | crypto/cryptosoft.c:412-443 | the effect on both maps and the answer, oversize and empty keys included |
| `KeyCache.Context.Delete` | crypto/cryptosoft.c:453-469 | the effect on both maps and the answer |
| `KeyCache.Context.Export` | crypto/cryptosoft.c:479-549 | the bytes, the answer and the slot that is filled |
| `KeyCache.Context.GeneratePairOf` | crypto/cryptosoft.c:559-615 | both keys of a pair, in flash and in slots |
| `KeyCache.Context.Generate` | crypto/cryptosoft.c:625-657 | a random key, in flash and in a slot |
| `KeyCache.Context.Save` | crypto/cryptosoft.c:667-691 | the cached key is in flash |
| `KeyCache.Context.LoadFlash` | crypto/cryptosoft.c:701-729 | the key of flash is in a slot |
| `KeyCache.Context.Unload` | crypto/cryptosoft.c:739-763 | the cached key is in flash and its slot is free |
| `KeyManager.Process` | crypto/cryptosoft.c:773-883 | every request has the effect, the answer and the bytes of the two-map machine, with the key that leaves a slot chosen by the order of use |
| `KeyManager.Run` | crypto/cryptosoft.c:773-883 | the same for any list of requests, from start to end; an imported key that nothing disturbed is still in its slot; for fair requests the answers are those that one map allows throughout |
| `PcmSubsample.KeptConcat` | audio/pcm_decode.c:512-667 | the bytes kept of a stream in two parts are those of each part, the second at the phase the first ends in |
| `PcmSubsample.KeptByPlace` | audio/pcm_decode.c:512-667 | the bytes kept are those whose place, counted from the start of a period, is below align modulo align plus the gap, for every gap and every start |
| `PcmSubsample.KeepsEveryNth` | audio/pcm_decode.c:512-667 | keeping one sample and dropping n - 1 is keeping the bytes at positions p with (p / align) mod n = 0 |
| `PcmSubsample.EveryNthAt` | audio/pcm_decode.c:512-667 | how many bytes are kept, and that byte k of them is byte k mod align of sample n * (k / align) of the stream |
| `PcmSubsample.RateExact` | audio/pcm_decode.c:438-498 | the gap that fits a byte gives every n-th sample of every stream if and only if align * (n - 1) <= 255 |
| `PcmSubsample.Decoder.Squeeze` | audio/pcm_decode.c:512-667 | in place, the write position never past the read position, the kept bytes of one buffer, and the phase after it |
| `PcmSubsample.Decoder.Subsample` | audio/pcm_decode.c:512-667 | over all buffers so far, however the stream is cut and wherever it began, what was played is the first sample of every period of what was heard; with a gap that fits a byte that is every n-th sample |
| `PcmSubsample.Decoder.Configure` | audio/pcm_decode.c:438-498 | a rate change, in mid-stream too, starts a new stream at the phase the old one was in |
| `Idgen.GBytes` | crypto/idgen.c:75-94 | the round function is a recurrence on bytes: each new byte is the one before the last changed by the table entry for the last one and the next key byte |
| `Idgen.GUndo` | crypto/idgen.c:75-94 | for every key and table the round function is a bijection of the 16-bit words, undone by the recurrence backwards |
| `Idgen.PermutedRounds` | crypto/idgen.c:96-118 | the permutation is thirty-one rounds, each changing the half before the last by the last and the number of the round, fifteen bits of it on the left |
| `Idgen.PermutedUndo` | crypto/idgen.c:96-118 | for every key and table the permutation is a bijection of the 31-bit numbers |
| `Idgen.Permute` | crypto/idgen.c:96-118 | the loop of fifteen double rounds and the last one goes through the halves of those thirty-one rounds |
| `Idgen.IdsApart` | crypto/idgen.c:141-161 | two counters less than 2^31 apart never give the same id |
| `Idgen.NoRepeat` | crypto/idgen.c:120-161 | over every history no id is zero, none repeats in its epoch, and none is an id of the epoch before |
| `Idgen.ZeroOnce` | crypto/idgen.c:141-161 | a turn of the loop that draws zero is followed by one that does not |
| `Idgen.Context.constructor` | crypto/idgen.c:134-139 | the first epoch |
| `Idgen.Context.Rekey` | crypto/idgen.c:120-128 | a new epoch with the other top bit |
| `Idgen.Context.Draw` | crypto/idgen.c:141-161 | one turn: a new key when the counter is past 0x60000000 or the key is older than 600 seconds, then the top bit and the thirty-one rounds on the counter with its offset |
| `Idgen.Context.Next` | crypto/idgen.c:141-161 | the loop turns at most twice; the id is nonzero and is the one id added to the history |
| `ArgList.ReadBack` | binfmt/binfmt_copyargv.c:130-198 | strings laid out in one allocation read back as themselves |
| `ArgList.NumArgs` | binfmt/binfmt_copyargv.c:52-80 | the number of arguments, or too many of the caller's |
| `ArgList.CopyStrings` | binfmt/binfmt_copyargv.c:130-198 | the copied list is the loader's followed by the caller's arguments after the first, and exactly when it fails |
| `ArgList.CopyPointers` | binfmt/binfmt_copyargv.c:249-283 | the same list without copying, or the caller's own |
| `Shebang.NamesOne` | binfmt/script.c:223-275 | a line names at most one interpreter and argument |
| `Shebang.NamesSome` | binfmt/script.c:223-275 | every line that is not blank names one |
| `Shebang.Cut` | binfmt/script.c:223-275 | cutting the buffer in place finds the interpreter and the argument the line names, and fails exactly for blank lines |
| `LoadSteps.LoadedAnswers` | binfmt/binfmt_loadmodule.c:102-264 | every load goes through places and formats in order: places until one answers 0, formats until one answers 0 or -EACCES, the last answer counting, or -ENOENT if there was none; allocations, scripts and unload function are those of the steps |
| `LoadSteps.AnswersOne` | binfmt/binfmt_loadmodule.c:102-264 | files, formats, paths and allocations admit only one such sequence of steps |
| `LoadSteps.LoadedExactly` | binfmt/binfmt_loadmodule.c:102-264 | a sequence of steps that they admit is what the load does, and there always is one |
| `LoadSteps.InOrderZero` | binfmt/binfmt_loadmodule.c:102-264 | a search succeeds if and only if something that it tried did, and then that is the last thing it tried |
| `ScriptLoader.LoadedChain` | binfmt/script.c:160-302 | a load that succeeds followed at most as many scripts as were left, each found and read, and all in the argument list |
| `ScriptLoader.GrownForm` | binfmt/script.c:88-146 | the closed form of the list: last interpreter, then each script behind the argument of its interpreter, then the old rest |
| `ScriptLoader.ScriptArguments` | binfmt/script.c:160-302 | the program starts with the last interpreter, the scripts, and the caller's arguments after the first |
| `ScriptLoader.Binary.SetArgv` | binfmt/script.c:88-146 | the composed list in one new allocation, the old list still there |
| `ScriptLoader.Binary.LoadScript` | binfmt/script.c:160-302 | on failure argv, depth and allocations are as before; on success one list took the place of the old one |
| `ScriptLoader.Binary.LoadFile` | binfmt/binfmt_loadmodule.c:102-156 | formats in turn, until one loads the file or denies access |
| `ScriptLoader.Binary.LoadModule` | binfmt/binfmt_loadmodule.c:176-264 | the PATH search or the one file, ending for every set of files, formats and paths, with the answer, the argument list, the unload function and the allocations of the steps of LoadSteps.Answers, which speaks of files, formats and paths alone |

## Findings

Properties one would expect that the code does not have. Each has an input that shows it, as a
member of the project or as one side of a condition on the inputs themselves, and the condition
under which it holds.

- A quotient of zero keeps the sign of its operands, so `bignum_div` makes negative zeros, and the
  residue of a negative zero is the modulus instead of zero (`BignumDivide.NegativeZeroQuotient`;
  exactly when: `BignumDivide.ResidueProper`).
- `vli_modmult` writes past its array when the product is more than 64n bits longer than the modulus
  (`VliModMult.ShiftOutOfBoundsExample`; exactly when: `VliModMult.ShiftInBounds`).
- `bignum_divmod` never ends for a negative divisor and a negative dividend that is not a multiple of
  it (exactly when: `BignumDivide.DivModEnds`).
- `bignum_inv_mod` returns a wrong number, and no error, when a sum of its coefficients overflows
  (`BignumEuclid.InverseFails`; it is right when none does: `BignumEuclid.InverseWhen`).
- `bignum_isqrt` squares numbers larger than the array holds; its first wrong root is at
  2 * 16^N - 2 for an array of N bytes (`BignumRoot.RootFails`; exactly when, for one argument:
  `BignumRoot.RootWhen`, and for all below a bound: `BignumRoot.RootExact`).
- Bytes that stand for 2^255 - 19 or more do not come back from a field element
  (`Curve25519.BytesRoundTrip`).
- The number of bytes to skip is kept in one byte, so large samples or rates keep the wrong samples
  (exactly when: `PcmSubsample.RateExact`).
- A key that is a prefix of the placeholder for reserved ids is lost when it leaves its slot
  (exactly when: `KeyStore.SurvivesFlash`, `KeyStore.SurvivesUnload`), and an empty key is dropped
  when another key takes its slot (`KeyStore.EmptyKeyDropped`; exactly when: `KeyStore.OthersKept`).
- A key too long for a slot is not imported over a cached one, although the import succeeds
  (`KeyStore.LongImportLost`; exactly when: `KeyStore.ImportTakes`).
- Load brings an older key back over one that was imported and not saved
  (`KeyStore.LoadUndoesImport`; exactly when: `KeyStore.LoadKeeps`), and makes a key of the
  placeholder of a reserved id (`KeyStore.LoadedPlaceholder`; exactly when: `KeyStore.LoadProper`).
- Reserve and delete look at flash alone, so they answer wrongly for keys that are only cached
  (`KeyStore.ImportedIsFree`; exactly when: `KeyStore.FlashAnswers`).
- Generating a key pair can write the old public key from its slot over the new one in flash
  (`KeyStore.OldPublicInFlash`; exactly when: `KeyStore.PairInFlash`).
- A slot that a delete frees is not used before the slots ahead of it: the least recently used key is
  driven out although other slots are free (`KeyOrder.FreeSlotsWait`; exactly when:
  `KeyOrder.StaysExactly`).
- Export does not cache a key that fills a slot, although import does (exactly when:
  `KeyStore.ExportCaches`).

## Left out

- BignumEuclid.InverseWhen: goes one way. A sum that overflows moves a coefficient by the capacity,
  which later halvings divide, and such moves may cancel modulo n or never reach the result; whether
  they do has no simpler form than the run itself.
- BignumPower.PowModFaster: asks for room for the square of the modulus, the square of the base and
  their product, as the code multiplies before it reduces.
- BignumDivide.DivMod: asks for the exact condition under which the code ends.
- BignumDivide.Mod: the same.
- VliModMult.ModMult: asks for the exact condition under which the code stays inside its arrays.
- VliProduct.Mult: models the 128-bit accumulator; the variant for compilers without 128-bit integers
  is not part of this model.
- VliReduce.MmodFast: models the secp256r1 configuration; the other curves are not part of this model.
- KeyStoreRun.OneMap: leaves open what reserve and delete answer for keys that are not saved and ids
  that are not keys, and whether save and unload find a key in a slot: that depends on where a key is
  (KeyStoreRun.AnswersOpen), and KeyManager.Run states it over the two maps. It asks that keys fit a
  slot and are not prefixes of the placeholder, and that load is used for saved keys; the findings
  above are what happens otherwise.
- KeyWrap.Unwrap: the counter is unbounded, and the steps are those of RFC 3394 while 6n is below 2^64,
  as it is for n blocks in memory.
- KeyWrap.Wrap: the same.
- KeyOrder.StaysExactly: speaks of imports that fit a slot and deletes; for the other requests
  KeyOrder.StaysCached goes one way, as whether they use a slot depends on what is cached.
- Idgen.GBytes: the contents of the table are not part of this model; everything holds for any table.
- ScriptLoader.Binary.LoadModule: other formats are functions from a path to an answer; the priority,
  the list of libraries and the stored file name of the binary are not part of this model.
- Elliptic-curve points, ECDSA, the Montgomery ladder of curve25519 and mod_sqrt: they rest on group
  theory, not on properties of this code.
- bignum_pow, bignum_to_string and bignum_from_string: the first is repeated multiplication, the others
  depend on library formatting.
- KeyCache.Context.Write: flash takes every key with an id and at least one byte; writes that fail are
  not part of this model.
- KeyCache.Context.Export: the source compares as many bytes as the key in flash has with the ten bytes of
  the placeholder, reading past it for longer keys; the model takes such keys as different from it.
- Wiping of secrets, constant-time behaviour and locking.
- WAV parsing and the audio driver around the subsampler.
- The other ciphers and hashes under crypto, the crypto device and its sessions.
