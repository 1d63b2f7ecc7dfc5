# Verified model of the address manager, the secp256k1 code and the codecs

This project models the parts of the repository whose correctness rests on the most intricate state and
arithmetic, and proves what they are for.

To verify the project: `dafny verify dfyconfig.toml`.

## The address manager

`CAddrMan` keeps each known peer address in two id maps, in a random-order vector and in slots of two
bucket tables, with reference counts and two counters beside them. `AddrBook.dfy` states what every
operation does to that state and the invariant `Consistent`: everything that the debug-only `Check_`
looks for, strengthened until it is inductive (ids below the next one, no dangling address keys, a
reference count equal to the number of slots). Between the statements of `MakeTried` and `Add_` the
invariant is broken; `AddrBookSteps.dfy` and `AddrBookOps.dfy` follow it through those states by naming
the ids that are in neither table and the ids not yet counted. `AddrBookTheorems.dfy` and
`AddrBookRuns.dfy` hold the results per operation and over all runs. `AddrBookOutcomes.dfy` says what a
call comes to in terms of the book before it: when an announced address gets a slot, whose slot it can be,
what makes an entry terrible, where entries are. `AddrBookHistory.dfy` ties the attempt records of every
entry to the calls made since it was created. `AddrMan.dfy` is the class itself,
with the arrays of buckets updated in place; each method is proved to take the object's view where the
book says, with all assertions of the original. `AddrManCheck.dfy` is `Check_` with its loops, proved to
return zero exactly on the books that pass what `AddrBookCheck.dfy` spells out; that file also proves
what passing lacks of consistency, and which calls lead to a book that is rejected. Bucket hashes, clocks
and random draws are arbitrary.

## The curve code

A tower, in which every storey refines the one below it. The code runs on machine words from the field
limbs up to the exported signing and verification; residues and points are its specification.

- `FieldLimbs.dfy`, `FieldNormalize.dfy`, `FieldElement.dfy`, `FieldStorage.dfy`: field elements as five
  52-bit limbs. Multiplication and squaring with every bit bound, the five lazy normalizations on every
  representation that `secp256k1_fe_verify` admits, negation, addition and small multiples with their
  magnitudes, and the two compact forms.
- `ScalarLimbs.dfy`, `ScalarReduction.dfy`, `ScalarBits.dfy`, `ScalarBytes.dfy`: scalars as four 64-bit
  limbs. The accumulator macros, the 512-bit product and square, the three-stage reduction, windows of
  bits, and 32 bytes.
- `PrimeField.dfy`, `ScalarField.dfy`: the residues that limbs stand for.
- `Curve.dfy`, `CurveGroup.dfy`: points, the chord-and-tangent sum, multiples of a point.
- `Jacobian.dfy`, `UnifiedAddition.dfy`, `FullAddition.dfy`: the five formulas of group_impl.h on residues,
  and the proof that they compute the sum. `GroupLimbs.dfy` performs them in place on limbs, with aliasing
  allowed, and proves that no factor ever exceeds magnitude 8 and that the residues are those of the
  formulas.
- `PointTables.dfy`, `TableLimbs.dfy`, `OddMultiples.dfy`, `BatchConversion.dfy`: tables that share a
  denominator, their packed storage form, and the conversion of a whole table with one inversion.
- `WNaf.dfy`, `Ecmult.dfy`, `EcmultGen.dfy`: recoding of a scalar's words, the interleaved double
  multiplication, and the blinded comb multiplication of the generator, with the builds of their contexts.
- `Ecdsa.dfy`: signing, verification, normalization and the retry loop, against section 4.1 of SEC 1.

Facts about the curve that the code relies on are hypotheses, collected in `CurveGroup.CurveFacts`: p and
n are prime, -7 has no cube root modulo p, the sum is associative, and n times any point is infinite.

## Codecs, wide integers and helpers

- `Radix.dfy`, `Base58.dfy`: Base58 both ways and Base58Check, with both buffer sizes.
- `Der.dfy`, `LaxForms.dfy`: the strict and the lax parser and the serializer of DER signatures, against
  sections 8.1.3 and 8.3 of X.690, and exactly which inputs the lax parser accepts.
- `Limbs32.dfy`, `ArithUint256.dfy`: 256-bit arithmetic on eight 32-bit words, up to the shift-subtract
  division.
- `Sha256Compression.dfy`, `Sha256.dfy`: the unrolled compression against the 64-round schedule of
  FIPS 180-4, and both streaming implementations against one digest. `Sha256Constants.dfy` derives the
  constants and the bit functions that code and schedule share from what the standard says they are, and
  `Sha256Example.dfy` works the digest of "abc" out from the definitions.
- `PageLocker.dfy`: the page histogram as a count of outstanding ranges.
- `Words.dfy`, `Primes.dfy`, `Powers.dfy`: machine words, inverses modulo a prime, powers of two.

## Where the code differs from what is said about it

- `Good_` with a time that is not positive, and `Attempt_` with a negative one, leave a book that
  `Check_` rejects whenever they find an entry (`GoodPasses`, `AttemptPasses`); one `Add_` to the empty
  book and then one such call is enough (`RejectedAfterTwoCalls`).
- `secp256k1_fe_verify` admits magnitude 2048, but the normalizations lose 2^64 there exactly when the
  first addition wraps around, that is, when the lowest limb plus 0x1000003D1 times the top limb's excess
  over 48 bits reaches 2^64 (`FirstPassExactly`); up to magnitude 2047 it cannot (`FitsBelow`). The limit of
  the limbs in the comment above the function, 2^53 - 1 per magnitude, is one more than it enforces; the
  model follows the function.
- Magnitude 1 allows 2^49 - 2 in the top limb, one less than the 49 bits noted at the end of the
  multiplication; the sum stored there does keep within it.
- In the constant-time addition the comment notes magnitude 3 for R, where 2 holds.
- `x *= x` on a 256-bit integer clears x before reading it and so yields 0, which is the square exactly
  for multiples of 2^128 (`SelfProduct`). A division by zero throws after the dividend has been cleared.
- The page loops never end for a range that reaches the top page of the address space (`LoopEnds`).

## Model

| member | source | states |
|---|---|---|
| `AddrBookOps.MakeTriedKeepsInv` | bitcoin-0.12.0/src/addrman.cpp:148-194 | promoting any untried entry of a consistent book meets every assertion on the way and leaves a consistent book in which the entry sits in its tried slot |
| `AddrBookTheorems.PromotionForgetsAtMostOne` | bitcoin-0.12.0/src/addrman.cpp:148-194 | a promotion forgets at most one address; an evicted entry stays known with exactly one slot of the new table, and the only address that can vanish is that slot's previous occupant, when that was its last reference |
| `AddrBookTheorems.GoodForgetsAtMostOne` | bitcoin-0.12.0/src/addrman.cpp:196-243 | marking an address good forgets at most one address, never the marked one, and changes the tried table in the marked entry's slot only |
| `AddrBookOps.GoodKeepsConsistency` | bitcoin-0.12.0/src/addrman.cpp:196-243 | `Good_` leaves a consistent book if and only if its time is positive or it finds no entry with that address and port |
| `AddrBookOps.TargetIsKnown` | bitcoin-0.12.0/src/addrman.cpp:198-209 | `Good_`, `Attempt_` and `Connected_` act on an entry if and only if the address is known and its entry has the same port |
| `AddrBookSteps.CreateNewKeepsInv` | bitcoin-0.12.0/src/addrman.cpp:87-97 | a created entry gets a fresh id, is indexed both ways and is counted, and only its slot is still missing |
| `AddrBookSteps.SwapKeepsInv` | bitcoin-0.12.0/src/addrman.cpp:99-117 | swapping two places of the random order keeps every index and every other part of the invariant |
| `AddrBookSteps.DeleteKeepsInv` | bitcoin-0.12.0/src/addrman.cpp:119-131 | deleting an entry without references keeps the invariant, removes exactly that id and that address, and breaks no assertion |
| `AddrBookSteps.ClearNewKeepsInv` | bitcoin-0.12.0/src/addrman.cpp:133-146 | clearing a slot of the new table keeps the invariant and forgets the slot's occupant exactly when that was its last slot |
| `AddrBookSteps.UnslotKeepsInv` | bitcoin-0.12.0/src/addrman.cpp:133-146 | taking an entry out of one slot lowers its reference count by that slot |
| `AddrBookSteps.LeaveNewKeepsInv` | bitcoin-0.12.0/src/addrman.cpp:151-160 | removing an entry from all its buckets ends with reference count zero and leaves the other entries' slots alone |
| `AddrBookOps.EvictKeepsInv` | bitcoin-0.12.0/src/addrman.cpp:166-188 | an eviction, through states in which the evictee is in neither table, restores the invariant |
| `AddrBookTheorems.PlaceKeepsInv` | bitcoin-0.12.0/src/addrman.cpp:289-309 | placing an entry, with or without overwriting the occupant, restores the invariant and drops an entry that is left without a slot |
| `AddrBookTheorems.AddKeepsConsistency` | bitcoin-0.12.0/src/addrman.cpp:245-311 | from any consistent book `Add_` breaks no assertion and ends in a consistent book, for all hashes, times, sources and draws |
| `AddrBookTheorems.AddForgetsAtMostOne` | bitcoin-0.12.0/src/addrman.cpp:245-311 | `Add_` never changes the tried table, adds no address but the announced one, and forgets at most one, that of the terrible occupant of the slot that the entry is placed in, which had no other |
| `AddrBookOutcomes.UnknownOutcome` | bitcoin-0.12.0/src/addrman.cpp:282-309 | an unknown routable address becomes known if and only if the slot that its source selects is free or held by an entry that is terrible or has another slot; then it has that slot, one reference, the announced services and the announced time less the penalty, and otherwise nothing is left of the call but the used id |
| `AddrBookOutcomes.KnownOutcome` | bitcoin-0.12.0/src/addrman.cpp:252-309 | a known address gets the announced services and, exactly when the announced time is far enough ahead, that time less the penalty; it gains the one slot that the source selects if and only if it is untried, has less than eight, is announced for a time ahead of its own, draws zero out of 2^n for its n slots, and finds the slot free or held by another, terrible, entry; otherwise nothing else changes |
| `AddrBookOutcomes.TerribleWhen` | bitcoin-0.12.0/src/addrman.cpp:32-51 | an entry is terrible if and only if it was not tried within the last minute and its time is zero, more than ten minutes ahead or more than thirty days back, or it failed three times without a success, or ten times with no success for a week |
| `AddrBookOutcomes.PlacesByHash` | bitcoin-0.12.0/src/addrman.cpp:148-194 | in a consistent book a tried entry is in exactly the slot of 256 times 64 that its two hashes select and in no slot of the new table, and an untried one has one to eight slots, each at its hashed position within its bucket |
| `AddrBookOutcomes.NewSlotByHash` | bitcoin-0.12.0/src/addrman.cpp:289-290 | the slot that an announcement competes for is given by the two hashes modulo 1024 and 64 |
| `AddrBookRuns.AttemptKeepsConsistency` | bitcoin-0.12.0/src/addrman.cpp:313-330 | `Attempt_` leaves a consistent book if and only if its time is not negative or it finds no entry with that address and port |
| `AddrBookRuns.ConnectedKeepsConsistency` | bitcoin-0.12.0/src/addrman.cpp:478-496 | `Connected_` keeps consistency whatever time it is given |
| `AddrBookOutcomes.ConnectedOutcome` | bitcoin-0.12.0/src/addrman.cpp:478-496 | afterwards the time of a known service is at most twenty minutes behind the given one if and only if it was so before or the given time fits 32 bits; nothing but that time changes, and only when it was further behind |
| `AddrBookRuns.GetAddrReports` | bitcoin-0.12.0/src/addrman.cpp:457-476 | a reply holds at most 2500 addresses and at most 23 percent of the known ones, only known addresses that are not terrible, none twice, and all of them when it stays below the limit; the book stays consistent and only its random order changes |
| `AddrBookRuns.GetAddrFromReports` | bitcoin-0.12.0/src/addrman.cpp:464-475 | the partial shuffle fixes a prefix of the order and reports exactly the presentable entries of that prefix |
| `AddrBookRuns.EveryOrderReplied` | bitcoin-0.12.0/src/addrman.cpp:464-475 | for every order of the known entries there are draws for which the reply lists those that are not terrible in that order, up to the limit: the shuffle excludes no selection |
| `AddrBookRuns.LimitIs` | bitcoin-0.12.0/src/addrman.cpp:459-461 | the limit is 23 percent of the known entries, rounded down, and at most 2500 |
| `AddrBookRuns.EmptyIsConsistent` | bitcoin-0.12.0/src/addrman.cpp:380-453 | the empty book is consistent |
| `AddrBookRuns.Step` | bitcoin-0.12.0/src/addrman.cpp:196-330 | every operation with the times of a clock takes consistent books to consistent books |
| `AddrBookRuns.Run` | bitcoin-0.12.0/src/addrman.cpp:196-330 | so does every run from the empty book |
| `AddrBookHistory.History` | bitcoin-0.12.0/src/addrman.cpp:196-330 | after every run, each entry was created by an announcement of its address, has been known ever since, and its attempts are those since its service was last marked good, its last success the time of that, and its last try the time of the last call of either kind, all since its creation |
| `AddrBookHistory.StepHistory` | bitcoin-0.12.0/src/addrman.cpp:196-330 | one call changes the attempt record of an entry exactly when it is `Good_` or `Attempt_` for that address and port, and creates an entry only as `Add_`, with an empty record |
| `AddrBookHistory.TerribleAfterRun` | bitcoin-0.12.0/src/addrman.cpp:32-51 | after every run an entry is terrible if and only if, by the calls since its creation: none of them tried it within the last minute, and its time is out of range, or three attempts failed and none succeeded, or ten failed since its last success more than a week ago |
| `AddrMan.AddrMan.SetSlot` | bitcoin-0.12.0/src/addrman.cpp:141-145 | writing one cell of a bucket array changes one entry of the table it stands for |
| `AddrMan.AddrMan.FindId` | bitcoin-0.12.0/src/addrman.cpp:74-85 | the lookup through both maps finds the id under which an address is known |
| `AddrMan.AddrMan.CreateEntry` | bitcoin-0.12.0/src/addrman.cpp:87-97 | the object's new state is that of the address book's creation |
| `AddrMan.AddrMan.Swap` | bitcoin-0.12.0/src/addrman.cpp:99-117 | the swap in place, with its assertions proved |
| `AddrMan.AddrMan.DeleteEntry` | bitcoin-0.12.0/src/addrman.cpp:119-131 | the deletion in place, with its assertions proved |
| `AddrMan.AddrMan.ClearSlot` | bitcoin-0.12.0/src/addrman.cpp:133-146 | the clearing of a slot in place, with its assertions proved |
| `AddrMan.AddrMan.LeaveAllNew` | bitcoin-0.12.0/src/addrman.cpp:151-160 | the loop over all buckets empties every slot of the id, and its reference count ends at zero as asserted |
| `AddrMan.AddrMan.EvictFrom` | bitcoin-0.12.0/src/addrman.cpp:166-188 | the eviction in place, with its assertions proved |
| `AddrMan.AddrMan.MakeTried_` | bitcoin-0.12.0/src/addrman.cpp:148-194 | the whole promotion in place |
| `AddrMan.AddrMan.FindBucket` | bitcoin-0.12.0/src/addrman.cpp:223-232 | the search from a random bucket comes back empty-handed if and only if the id has no slot |
| `AddrMan.AddrMan.PromoteKnown` | bitcoin-0.12.0/src/addrman.cpp:219-242 | for a known untried entry the bail-out without a bucket is never taken |
| `AddrMan.AddrMan.Good_` | bitcoin-0.12.0/src/addrman.cpp:196-243 | the method takes the view to what `Good` says, for every random draw; what that does to the entry and to all others is in GoodForgetsAtMostOne and StepHistory |
| `AddrMan.AddrMan.Add_` | bitcoin-0.12.0/src/addrman.cpp:245-311 | the method takes the view to what `Add` says, which UnknownOutcome and KnownOutcome state in full, and returns true exactly for a routable address that was unknown |
| `AddrMan.AddrMan.RefreshFields` | bitcoin-0.12.0/src/addrman.cpp:255-281 | the part for a known address, and exactly when it stops early |
| `AddrMan.AddrMan.PlaceEntry` | bitcoin-0.12.0/src/addrman.cpp:289-309 | the part that takes a slot or drops the entry; when it does which is in UnknownOutcome and KnownOutcome |
| `AddrMan.AddrMan.Attempt_` | bitcoin-0.12.0/src/addrman.cpp:313-330 | the method takes the view to what `Attempt` says |
| `AddrMan.AddrMan.Connected_` | bitcoin-0.12.0/src/addrman.cpp:478-496 | the method takes the view to what `Connected` says |
| `AddrMan.AddrMan.GetAddr_` | bitcoin-0.12.0/src/addrman.cpp:457-476 | the method takes the view to, and returns, what `GetAddr` says |
| `AddrManCheck.CheckEntries` | bitcoin-0.12.0/src/addrman.cpp:388-417 | the first loop reports nothing if and only if every entry passes, and then collects the tried ids and the reference counts of the others; a lookup of a missing address only leaves a zero behind |
| `AddrManCheck.CheckTried` | bitcoin-0.12.0/src/addrman.cpp:419-431 | the loop over the tried table ends without a report and with every tried id struck out if and only if each slot holds a tried entry in its place and each tried entry has its slot |
| `AddrManCheck.CheckNew` | bitcoin-0.12.0/src/addrman.cpp:433-444 | the loop over the new table ends without a report and with every reference counted if and only if each slot holds an untried entry at its position and each untried entry has as many slots as references |
| `AddrManCheck.Check` | bitcoin-0.12.0/src/addrman.cpp:380-453 | `Check_` returns 0 if and only if the book passes and the key is not null; it changes nothing on a consistent book |
| `AddrBookCheck.ConsistentIffPasses` | bitcoin-0.12.0/src/addrman.cpp:380-453 | a book is consistent if and only if it passes and what `Check_` does not look at is in order: ids below the next one, no stale address, slots that exist; the random order needs no more than what `Check_` tests |
| `AddrBookCheck.InvPasses` | bitcoin-0.12.0/src/addrman.cpp:380-453 | on the structure that every operation keeps, the check passes if and only if the recorded times are sound |
| `AddrBookCheck.GoodPasses` | bitcoin-0.12.0/src/addrman.cpp:196-243 | after `Good_` on a consistent book the check passes if and only if the time was positive or no entry was found |
| `AddrBookCheck.AttemptPasses` | bitcoin-0.12.0/src/addrman.cpp:313-330 | after `Attempt_` on a consistent book the check passes if and only if the time was not negative or no entry was found |
| `AddrBookCheck.RejectedAfterTwoCalls` | bitcoin-0.12.0/src/addrman.cpp:196-330 | for every address and all hashes: an addition to the empty book passes, and then `Good_` at a time that is not positive, or `Attempt_` at a negative one, does not |
| `FieldLimbs.MulInner` | EC_Sign/btcsign/field_5x52_int128_impl.h:18-153 | for limbs below 2^56, the top one below 2^52, no intermediate value exceeds the bits noted beside it, the result is congruent to the product modulo p, and its limbs are below 2^52, the top one at most 2^49 - 2; the output may be the first factor |
| `FieldLimbs.SqrInner` | EC_Sign/btcsign/field_5x52_int128_impl.h:155-275 | the same limits on the result and every bound noted beside an intermediate value, three of them tighter than in the multiplication, with the doubled limbs formed in 64 bits; the residue is that of the product of the argument with itself |
| `FieldLimbs.CarryChain` | EC_Sign/btcsign/field_5x52_int128_impl.h:40-152 | what the interleaved reduction drops is a multiple of p |
| `FieldLimbs.ColumnsAreProduct` | EC_Sign/btcsign/field_5x52_int128_impl.h:40-152 | the nine column sums are the digits of the product in base 2^52 |
| `FieldLimbs.SquareColumnsAreColumns` | EC_Sign/btcsign/field_5x52_int128_impl.h:165-274 | the doubled-limb column sums of the square are those of the product |
| `FieldNormalize.Normalize` | EC_Sign/btcsign/field_5x52_impl.h:59-100 | for every representation up to magnitude 2048: the unique limbs of a residue, which is that of the argument if and only if the first addition does not wrap around |
| `FieldNormalize.NormalizeVar` | EC_Sign/btcsign/field_5x52_impl.h:126-168 | the same limbs and the same condition, with the final addition made only when needed |
| `FieldNormalize.NormalizeWeak` | EC_Sign/btcsign/field_5x52_impl.h:102-124 | magnitude 1, and the same residue if and only if the first addition does not wrap around |
| `FieldNormalize.NormalizesToZero` | EC_Sign/btcsign/field_5x52_impl.h:170-191 | true if and only if what the first pass keeps of the value is a multiple of p |
| `FieldNormalize.NormalizesToZeroVar` | EC_Sign/btcsign/field_5x52_impl.h:193-232 | the same, also on the early exit |
| `FieldNormalize.FirstPassSettles` | EC_Sign/btcsign/field_5x52_impl.h:59-75 | up to magnitude 2048, folding the top limb and carrying once gives limbs of a number below 2p that is congruent to what the first addition keeps, without losing another carry |
| `FieldNormalize.NormalizedIsUnique` | EC_Sign/btcsign/field_5x52_impl.h:34-54 | a residue has one normalized representation |
| `FieldNormalize.ZeroMasks` | EC_Sign/btcsign/field_5x52_impl.h:174-190 | the or-mask is zero exactly for the limbs of 0, and the and-mask is all ones exactly for those of p; both tests compute these masks |
| `FieldNormalize.MagnitudeLimit` | EC_Sign/btcsign/field_5x52_impl.h:34-47 | magnitude 2048, which `secp256k1_fe_verify` admits, is one too many: an element with which the first addition wraps around |
| `FieldNormalize.FirstPassExactly` | EC_Sign/btcsign/field_5x52_impl.h:59-75 | up to magnitude 2048 the first pass keeps the residue if and only if the lowest limb plus 0x1000003D1 times the excess of the top limb is below 2^64 |
| `FieldNormalize.FitsBelow` | EC_Sign/btcsign/field_5x52_impl.h:34-75 | which always holds up to magnitude 2047 |
| `FieldNormalize.ZeroTestExactly` | EC_Sign/btcsign/field_5x52_impl.h:170-232 | the tests for zero are right if and only if the first addition does not wrap around, or neither the value nor the value less 2^64 is a multiple of p |
| `FieldNormalize.NormalizeAtTheLimit` | EC_Sign/btcsign/field_5x52_impl.h:59-100 | the failing element through the normalization itself: its residue is lost |
| `FieldElement.FeMul` | EC_Sign/btcsign/field_5x52_impl.h:378-392 | factors of magnitude at most 8 give a product of magnitude 1 with the product's residue |
| `FieldElement.FeSqr` | EC_Sign/btcsign/field_5x52_impl.h:394-405 | the same for squares |
| `FieldElement.FeNegate` | EC_Sign/btcsign/field_5x52_impl.h:332-347 | no limb falls below zero; the residue is negated and the magnitude grows by one |
| `FieldElement.FeAdd` | EC_Sign/btcsign/field_5x52_impl.h:362-376 | residues and magnitudes add up, without overflow up to magnitude 2048 |
| `FieldElement.FeMulInt` | EC_Sign/btcsign/field_5x52_impl.h:349-360 | residue and magnitude are multiplied, without overflow up to magnitude 2048 |
| `FieldElement.FeCmov` | EC_Sign/btcsign/field_5x52_impl.h:407-422 | the two masks select the limbs by the flag; the magnitude is the larger one |
| `FieldStorage.StorageCmov` | EC_Sign/btcsign/field_5x52_impl.h:424-432 | the same on four storage words |
| `FieldElement.FeEqualVar` | EC_Sign/btcsign/field_impl.h:24-29 | true if and only if both stand for the same residue |
| `FieldElement.FeIsZero` | EC_Sign/btcsign/field_5x52_impl.h:244-251 | true if and only if a normalized element stands for zero |
| `FieldElement.FeIsOdd` | EC_Sign/btcsign/field_5x52_impl.h:253-259 | the parity of the residue |
| `FieldElement.FeCmpVar` | EC_Sign/btcsign/field_5x52_impl.h:272-289 | the order of the residues |
| `FieldStorage.ToStorage` | EC_Sign/btcsign/field_5x52_impl.h:434-442 | four words that stand for the same number; the overlapping shifts lose nothing |
| `FieldStorage.FromStorage` | EC_Sign/btcsign/field_5x52_impl.h:444-454 | limbs of the same number, normalized when it is below p |
| `FieldStorage.StoreAndLoad` | EC_Sign/btcsign/field_5x52_impl.h:434-454 | storing and loading gives the same limbs back |
| `FieldStorage.LoadAndStore` | EC_Sign/btcsign/field_5x52_impl.h:434-454 | loading and storing gives the same words back, for words that stand for a residue |
| `FieldStorage.SetB32` | EC_Sign/btcsign/field_5x52_impl.h:291-311 | the limbs stand for the number of the 32 bytes, and the result tells whether it is below p, when they are normalized |
| `FieldStorage.GetB32` | EC_Sign/btcsign/field_5x52_impl.h:314-330 | the 32 bytes stand for the element's number |
| `ScalarLimbs.MulAdd` | EC_Sign/btcsign/scalar_4x64_impl.h:171-183 | the accumulator grows by exactly the product; the wrap-around tests catch every carry |
| `ScalarLimbs.MulAddFast` | EC_Sign/btcsign/scalar_4x64_impl.h:186-197 | the same on two words, when the sum fits them |
| `ScalarLimbs.MulAdd2` | EC_Sign/btcsign/scalar_4x64_impl.h:200-219 | the accumulator grows by exactly twice the product |
| `ScalarLimbs.SumAdd` | EC_Sign/btcsign/scalar_4x64_impl.h:222-228 | the accumulator grows by exactly the word |
| `ScalarLimbs.SumAddFast` | EC_Sign/btcsign/scalar_4x64_impl.h:231-236 | the same on two words |
| `ScalarLimbs.Extract` | EC_Sign/btcsign/scalar_4x64_impl.h:239-252 | the lowest word is taken off and the rest moves down |
| `ScalarLimbs.Mul512` | EC_Sign/btcsign/scalar_4x64_impl.h:697-728 | the exact 512-bit product |
| `ScalarLimbs.Sqr512` | EC_Sign/btcsign/scalar_4x64_impl.h:840-873 | the exact square, from doubled partial products |
| `ScalarLimbs.LimbsUnique` | EC_Sign/btcsign/scalar_4x64_impl.h:697-873 | equal numbers have equal limbs, so the square's limbs are those of the product |
| `ScalarReduction.Stage385` | EC_Sign/btcsign/scalar_4x64_impl.h:499-524 | the first stage of the reduction is exact, and m6 is at most 1 |
| `ScalarReduction.Stage258` | EC_Sign/btcsign/scalar_4x64_impl.h:526-545 | the second stage is exact, and p4 is at most 2 |
| `ScalarReduction.Stage256` | EC_Sign/btcsign/scalar_4x64_impl.h:547-556 | the third stage is exact, and its carry is at most 1 |
| `ScalarReduction.Reduce512` | EC_Sign/btcsign/scalar_4x64_impl.h:490-561 | every 512-bit number becomes its residue below n |
| `ScalarReduction.CheckOverflow` | EC_Sign/btcsign/scalar_4x64_impl.h:59-69 | true if and only if the limbs reach n |
| `ScalarReduction.Reduce` | EC_Sign/btcsign/scalar_4x64_impl.h:71-83 | the limbs plus overflow times 2^256 - n, modulo 2^256 |
| `ScalarReduction.Mul` | EC_Sign/btcsign/scalar_4x64_impl.h:875-879 | the product modulo n; the output may be an operand |
| `ScalarReduction.Sqr` | EC_Sign/btcsign/scalar_4x64_impl.h:880-884 | the square modulo n |
| `ScalarReduction.Add` | EC_Sign/btcsign/scalar_4x64_impl.h:85-99 | the sum modulo n, and whether n was subtracted |
| `ScalarReduction.Negate` | EC_Sign/btcsign/scalar_4x64_impl.h:142-152 | the negation modulo n, also of zero |
| `ScalarReduction.IsHigh` | EC_Sign/btcsign/scalar_4x64_impl.h:158-168 | true if and only if the scalar exceeds (n - 1) / 2 |
| `ScalarReduction.IsZero` | EC_Sign/btcsign/scalar_4x64_impl.h:138-140 | true if and only if the number is zero |
| `ScalarBits.GetBitsReads` | EC_Sign/btcsign/scalar_4x64_impl.h:43-46 | the window of one limb is the window of the number |
| `ScalarBits.GetBitsVarReads` | EC_Sign/btcsign/scalar_4x64_impl.h:48-57 | so is the window that two shifted limbs are joined for |
| `ScalarBytes.OrBytesIs` | EC_Sign/btcsign/scalar_4x64_impl.h:119-124 | the shifted bytes do not overlap, so their OR is the number they stand for |
| `ScalarBytes.SetB32` | EC_Sign/btcsign/scalar_4x64_impl.h:119-129 | the residue modulo n of the number of the 32 bytes, and whether it was n or more |
| `ScalarBytes.GetB32` | EC_Sign/btcsign/scalar_4x64_impl.h:131-136 | the 32 bytes stand for the number of the limbs |
| `Curve.ThirdPointOnCurve` | EC_Sign/btcsign/group_impl.h:191-465 | the chord-and-tangent rule stays on the curve |
| `Curve.SumIs` | EC_Sign/btcsign/group_impl.h:191-465 | any point that the rule allows is the sum |
| `Curve.SumCommutes` | EC_Sign/btcsign/group_impl.h:191-465 | the sum commutes |
| `CurveGroup.TimesSum` | EC_Sign/btcsign/ecmult_impl.h:269-387 | multiples add up |
| `CurveGroup.TimesModN` | EC_Sign/btcsign/ecmult_impl.h:269-387 | multiples only depend on the factor modulo n |
| `CurveGroup.FiniteMultiple` | EC_Sign/btcsign/ecmult_impl.h:35-68 | no multiple of a finite point below n is infinite |
| `CurveGroup.AbscissaNonzero` | EC_Sign/btcsign/secp256k1.c:119-136 | no finite point has abscissa zero, since such a point would have order 3 |
| `CurveGroup.GeneratorOnCurve` | EC_Sign/btcsign/group_impl.h:16-24 | the generator satisfies the curve equation |
| `Jacobian.DoubleVarIsSum` | EC_Sign/btcsign/group_impl.h:191-232 | on the curve, over a field without a cube root of -7, the doubling is the chord-and-tangent sum, is infinite only for infinity, and its z is the old z times the reported ratio |
| `Jacobian.AddGeVarIsSum` | EC_Sign/btcsign/group_impl.h:239-286 | the variable-time addition is the sum in all its cases, with the ratio of z |
| `Jacobian.AddZinvVarIsSum` | EC_Sign/btcsign/group_impl.h:288-342 | the addition of (x, y, 1 / bzinv) is the sum in all its cases |
| `UnifiedAddition.AddGeIsSum` | EC_Sign/btcsign/group_impl.h:345-465 | the constant-time formula is the sum for every finite second point: doublings, opposite points, and y1 = -y2 with different abscissas included |
| `UnifiedAddition.DenominatorZero` | EC_Sign/btcsign/group_impl.h:404-435 | the chosen denominator vanishes exactly for opposite points |
| `FullAddition.AddVarIsSum` | bitcoin-0.12.0/src/secp256k1/src/group_impl.h:301-352 | the addition of two Jacobian points is the sum in all its cases, both infinities, doublings and opposite points included, and its z is that of the first point times the reported ratio |
| `Jacobian.GejNegIsNegative` | EC_Sign/btcsign/group_impl.h:164-171 | the mirror image |
| `Jacobian.GejEqXVarIsAbscissa` | EC_Sign/btcsign/group_impl.h:156-162 | the comparison without an inversion holds exactly for the point's abscissa |
| `Jacobian.RescaleIsSame` | EC_Sign/btcsign/group_impl.h:467-476 | rescaling by a nonzero factor keeps the point |
| `GroupLimbs.GejLimbs.DoubleVar` | EC_Sign/btcsign/group_impl.h:191-232 | in place, where the output may be the input: no factor exceeds magnitude 8, the magnitudes become 6, 4 and 2, and the residues are those of the doubling |
| `GroupLimbs.GejLimbs.AddGeVar` | EC_Sign/btcsign/group_impl.h:239-286 | in place, where the output may be the input: all magnitudes stay in bounds, and the residues are those of the addition |
| `GroupLimbs.GejLimbs.AddZinvVar` | EC_Sign/btcsign/group_impl.h:288-342 | the same for the addition with a given inverse |
| `GroupLimbs.GejLimbs.AddVar` | bitcoin-0.12.0/src/secp256k1/src/group_impl.h:301-352 | the same for the addition of two Jacobian points, which may both be the output |
| `GroupLimbs.GejLimbs.AddGe` | EC_Sign/btcsign/group_impl.h:345-465 | the same for the constant-time addition, for infinite first points too |
| `GroupLimbs.GejLimbs.AddTail` | EC_Sign/btcsign/group_impl.h:274-285 | on limbs: the common end of the additions leaves magnitudes 5, 3 and 1 |
| `GroupLimbs.GejLimbs.UnifiedTail` | EC_Sign/btcsign/group_impl.h:435-458 | on limbs: the end of the constant-time addition leaves magnitudes 4, 4 and 2 |
| `GroupLimbs.GejLimbs.Negate` | EC_Sign/btcsign/group_impl.h:164-171 | on limbs: the mirror image |
| `GroupLimbs.GejLimbs.Rescale` | EC_Sign/btcsign/group_impl.h:467-476 | on limbs: the rescaling |
| `GroupLimbs.GejLimbs.EqXVar` | EC_Sign/btcsign/group_impl.h:156-162 | on limbs: the comparison of abscissas |
| `TableLimbs.GlobalzSetTableGej` | EC_Sign/btcsign/group_impl.h:83-104 | on limbs, for every length: each output pair over the one globalz denotes the same point as its input |
| `TableLimbs.SetTableGejVar` | EC_Sign/btcsign/group_impl.h:65-81 | on limbs: one inversion makes every output the affine form of its input |
| `TableLimbs.GeSetGejZinv` | EC_Sign/btcsign/group_impl.h:26-34 | on limbs: the scaling by a given inverse, within magnitude 8 |
| `TableLimbs.Mirror` | EC_Sign/btcsign/group_impl.h:46-50 | on limbs: the mirror image of an affine point |
| `TableLimbs.GeToStorage` | EC_Sign/btcsign/group_impl.h:478-487 | the packed words of a finite point, whatever its magnitudes up to 8 |
| `TableLimbs.GeFromStorage` | EC_Sign/btcsign/group_impl.h:489-493 | the words give the point back, with normalized coordinates |
| `TableLimbs.GeStorageCmov` | EC_Sign/btcsign/group_impl.h:495-498 | the masks select the words by the flag |
| `BatchConversion.InvAllVar` | bitcoin-0.12.0/src/secp256k1/src/field_impl.h:256-281 | one inversion and the running products give the inverse of each of the elements |
| `BatchConversion.SetAllGejVar` | bitcoin-0.12.0/src/secp256k1/src/group_impl.h:81-105 | each output is the affine form of its input, and infinite where that is |
| `PointTables.DoubleScaled` | EC_Sign/btcsign/ecmult_impl.h:35-68 | a doubling ignores a factor of z that the whole table shares |
| `PointTables.AddGeVarScaled` | EC_Sign/btcsign/ecmult_impl.h:35-68 | so does the variable-time addition |
| `PointTables.AddZinvVarScaled` | EC_Sign/btcsign/ecmult_impl.h:377-380 | and the addition with a given inverse |
| `OddMultiples.OddMultiplesTable` | EC_Sign/btcsign/ecmult_impl.h:35-68 | on limbs, for every length n with 2n at most the group order: the entries denote A, 3A, ..., (2n - 1)A once the missing factor is supplied, each zr is the ratio of neighbouring z, and no factor exceeds magnitude 8 |
| `WNaf.Recode` | EC_Sign/btcsign/ecmult_impl.h:211-267 | from the four words of a scalar, for widths 2 to 31: the digits add up to the scalar or to the scalar minus n, each is zero or odd and below half a window, nonzero digits are a width apart, the length returned is at most one more than the bits of the stripped scalar, and the final checks of the carry and of the bits above hold |
| `WNaf.StrippedBelow` | EC_Sign/btcsign/ecmult_impl.h:228-232 | after the possible negation at most 255 bits are left, so length 256 suffices |
| `WNaf.WindowDigit` | EC_Sign/btcsign/ecmult_impl.h:250-253 | a window and a carry give a digit and a carry |
| `Ecmult.TableGet` | EC_Sign/btcsign/ecmult_impl.h:117-126 | every odd digit in range has a table entry, which denotes the digit times the point, over the shared z |
| `Ecmult.TableGetStorage` | EC_Sign/btcsign/ecmult_impl.h:128-138 | the same for the stored table of G |
| `Ecmult.TableGlobalzWindowA` | EC_Sign/btcsign/ecmult_impl.h:85-93 | the table for A over one z, on limbs |
| `Ecmult.TableStorageVar` | EC_Sign/btcsign/ecmult_impl.h:95-113 | the affine table for any point, in packed words |
| `Ecmult.Context.constructor` | EC_Sign/btcsign/ecmult_impl.h:147-177 | the context holds the words of the odd multiples of G |
| `Ecmult.Round` | EC_Sign/btcsign/ecmult_impl.h:352-382 | one round on limbs doubles both factors and adds the digits, and its point may enter the next |
| `Ecmult.Multiply` | EC_Sign/btcsign/ecmult_impl.h:269-387 | from the words of the scalars to the limbs of the result: the interleaved loop returns na A + ng G for every finite A and all scalars, the shared z included, and no factor on the way exceeds magnitude 8 |
| `EcmultGen.MasksCancel` | EC_Sign/btcsign/ecmult_gen_impl.h:55-86 | the 64 masking factors 1, 2, ..., 2^62, 1 - 2^63 add up to zero |
| `EcmultGen.FillColumn` | EC_Sign/btcsign/ecmult_gen_impl.h:63-67 | a column holds i 16^j G plus its mask, by additions of Jacobian points on limbs |
| `EcmultGen.BuildTable` | EC_Sign/btcsign/ecmult_gen_impl.h:55-86 | the loop builds the whole comb table from any masking point, in packed words |
| `EcmultGen.GenContext.Multiply` | EC_Sign/btcsign/ecmult_gen_impl.h:124-156 | on words, for every gn and every blinding: the result is gn G |
| `EcmultGen.GenContext.Blind` | EC_Sign/btcsign/ecmult_gen_impl.h:159-208 | the starting point is -blind G afterwards, from a reset or from any valid context |
| `EcmultGen.GenContext.RandomizeAll` | EC_Sign/btcsign/secp256k1.c:527-532 | the context stays valid over any sequence of randomizations, with and without a seed |
| `EcmultGen.GenContext.Select` | EC_Sign/btcsign/ecmult_gen_impl.h:136-149 | the sixteen conditional moves select the entry of the four bits |
| `EcmultGen.GenContext.constructor` | EC_Sign/btcsign/ecmult_gen_impl.h:21-92 | building the table and blinding without a seed makes a valid context |
| `EcmultGen.BuiltAndRandomized` | EC_Sign/btcsign/ecmult_gen_impl.h:21-208 | a context that is built and then randomized any number of times multiplies the generator by gn |
| `Ecdsa.TwoCases` | EC_Sign/btcsign/ecdsa_impl.h:203-255 | "x modulo n is r" holds exactly if x is r, or r < p - n and x is r + n |
| `Ecdsa.SigVerify` | EC_Sign/btcsign/ecdsa_impl.h:203-255 | on words: true if and only if the signature is valid by section 4.1.4 of SEC 1 |
| `Ecdsa.AbscissaMatches` | EC_Sign/btcsign/ecdsa_impl.h:222-254 | the two comparisons on limbs decide whether the abscissa is r modulo n |
| `Ecdsa.ValidByInverse` | EC_Sign/btcsign/ecdsa_impl.h:203-255 | validity does not depend on which inverse of s is taken |
| `Ecdsa.EitherSign` | EC_Sign/btcsign/ecdsa_impl.h:203-255 | s and n - s are valid for the same messages and keys |
| `Ecdsa.SignedIsValid` | EC_Sign/btcsign/ecdsa_impl.h:257-301 | what signing makes from key d is valid for the key d G |
| `Ecdsa.SigSign` | EC_Sign/btcsign/ecdsa_impl.h:257-301 | on words: on success a low signature for the nonce, with the recovery id of its point; failure exactly when r or s is zero |
| `Ecdsa.NormalizeKeepsValidity` | EC_Sign/btcsign/secp256k1.c:278-295 | normalizing gives a low s that is valid exactly when the original was, and reports whether it changed |
| `Ecdsa.SignatureNormalize` | EC_Sign/btcsign/secp256k1.c:278-295 | the words of s become those of the normalized s |
| `Ecdsa.PubkeyLoad` | EC_Sign/btcsign/secp256k1.c:119-136 | the stored point, unless its first coordinate is zero |
| `Ecdsa.KeyLoads` | EC_Sign/btcsign/secp256k1.c:119-136 | a key object that holds a point of the curve is never rejected |
| `Ecdsa.PubkeyCreate` | EC_Sign/btcsign/secp256k1.c:409-430 | succeeds exactly for the secrets in range, with the stored point d G; zeros otherwise |
| `Ecdsa.Verify` | EC_Sign/btcsign/secp256k1.c:297-312 | on words and bytes: true if and only if s is not high, the key loads and the signature is valid |
| `Ecdsa.Sign` | EC_Sign/btcsign/secp256k1.c:349-393 | on words and bytes: an invalid key fails; otherwise the first attempt that stops the loop decides, and a signature returned is low and valid for the key d G |
| `Ecdsa.SignAndVerify` | EC_Sign/btcsign/secp256k1.c:297-393 | what signing returns, verification accepts for the key of the secret that signed; and signing returns a signature exactly when the first attempt that stops the loop has a nonce |
| `Ecdsa.CreateSignVerify` | EC_Sign/btcsign/secp256k1.c:297-430 | from the bytes of a secret to a verified signature: the key is created exactly for the secrets in range, and whatever is signed with one of them is accepted under that key |
| `Der.ReadLen` | EC_Sign/btcsign/ecdsa_impl.h:49-99 | a length if and only if the octets are one in the shortest form that fits the input |
| `Der.ParseInteger` | EC_Sign/btcsign/ecdsa_impl.h:101-145 | a scalar if and only if a shortest integer element is there; negative and too large numbers become 0 |
| `Der.SigParse` | EC_Sign/btcsign/ecdsa_impl.h:147-177 | accepts exactly the strict encodings and returns their pair |
| `Der.StrictUnique` | EC_Sign/btcsign/ecdsa_impl.h:147-177 | an input encodes one pair at most |
| `Der.SigSerialize` | EC_Sign/btcsign/ecdsa_impl.h:179-201 | writes the serialization when the buffer holds it, and otherwise only reports its size |
| `Der.ParseSerialize` | EC_Sign/btcsign/ecdsa_impl.h:147-201 | parsing a serialized pair gives the pair back, for all scalars |
| `Der.SerializeParse` | EC_Sign/btcsign/ecdsa_impl.h:147-201 | a strictly accepted input with nonzero scalars is byte for byte the serialization of its pair |
| `Der.ParseDerLax` | EC_Sign/btcsign/pubkey.cpp:26-165 | the loops compute `ParseLax`, whose result on every input LaxAccepts and RefusedIff give |
| `Der.LaxAgrees` | EC_Sign/btcsign/pubkey.cpp:26-165 | the lax parser returns the same pair on every strictly accepted input with nonzero scalars |
| `LaxForms.LaxAccepts` | EC_Sign/btcsign/pubkey.cpp:17-165 | every input made of a skipped length, two integers with contents of any sign and padding and lengths in any form of less than eight significant octets, and anything behind, is accepted with the numbers that the contents are, or with (0, 0) when one of them is not below n |
| `LaxForms.RefusedIff` | EC_Sign/btcsign/pubkey.cpp:26-165 | an input is refused if and only if it cannot be taken apart in that way |
| `Base58.DecodeEncode` | EC_Sign/btcsign/base58.cpp:21-100 | decoding an encoded byte sequence gives it back |
| `Base58.EncodeDecode` | EC_Sign/btcsign/base58.cpp:21-100 | encoding what an accepted text decodes to gives the text without the spaces around it |
| `Base58.EncodeBuffer` | EC_Sign/btcsign/base58.cpp:76 | 138/100 digits per byte, plus one, suffice for every length |
| `Base58.DecodeBuffer` | EC_Sign/btcsign/base58.cpp:33 | 733/1000 bytes per digit, plus one, suffice for every length |
| `Base58.ToBase58` | EC_Sign/btcsign/base58.cpp:76-88 | the nested loops leave the number in base 58 in the buffer, and `assert(carry == 0)` never fires |
| `Base58.ToBytes` | EC_Sign/btcsign/base58.cpp:33-49 | the same the other way, up to the first space or foreign character |
| `Base58.EncodeBase58` | EC_Sign/btcsign/base58.cpp:67-100 | the loops compute the encoding, in the letters that LettersAre and Ascending determine |
| `Base58.DecodeBase58` | EC_Sign/btcsign/base58.cpp:21-65 | the loops accept and decode exactly what the specification does, with the same letters |
| `Base58.LettersAre` | EC_Sign/btcsign/base58.cpp:18-19 | a character is one of the 58 letters if and only if it is an ASCII digit or letter other than 0, I, O and l |
| `Base58.Ascending` | EC_Sign/btcsign/base58.cpp:18-19 | the letters stand for the digits in ascending order |
| `Base58.BlanksAre` | EC_Sign/btcsign/base58.cpp:24-25 | the characters skipped around a text are the six blanks of the C locale |
| `Base58.EncodeBase58Check` | EC_Sign/btcsign/base58.cpp:112-119 | encodes the bytes followed by the first four of their hash |
| `Base58.DecodeBase58Check` | EC_Sign/btcsign/base58.cpp:121-136 | accepts exactly the encodings of bytes followed by the first four of their hash |
| `ArithUint256.BaseUint.AddAssign` | EC_Sign/btcsign/arith_uint256.h:135-145 | the sum modulo 2^256, also of an object with itself |
| `ArithUint256.BaseUint.Negated` | EC_Sign/btcsign/arith_uint256.h:77-84 | the negation modulo 2^256 |
| `ArithUint256.BaseUint.Increment` | EC_Sign/btcsign/arith_uint256.h:173-180 | one more, modulo 2^256 |
| `ArithUint256.BaseUint.SubAssign` | EC_Sign/btcsign/arith_uint256.h:147-151 | the difference modulo 2^256 |
| `ArithUint256.BaseUint.ShiftLeftAssign` | EC_Sign/btcsign/arith_uint256.cpp:21-36 | the product with 2^shift modulo 2^256, for every shift |
| `ArithUint256.BaseUint.ShiftRightAssign` | EC_Sign/btcsign/arith_uint256.cpp:38-53 | the floor quotient by 2^shift, for every shift |
| `ArithUint256.BaseUint.MulAssign32` | EC_Sign/btcsign/arith_uint256.cpp:55-65 | the product with a word modulo 2^256 |
| `ArithUint256.BaseUint.MulAssign` | EC_Sign/btcsign/arith_uint256.cpp:67-81 | the product modulo 2^256 for two objects; zero for an object with itself |
| `ArithUint256.SelfProduct` | EC_Sign/btcsign/arith_uint256.cpp:67-81 | that zero is the square modulo 2^256 if and only if the number is a multiple of 2^128 |
| `ArithUint256.BaseUint.DivAssign` | EC_Sign/btcsign/arith_uint256.cpp:83-107 | throws exactly for a zero divisor, when the dividend is already cleared; otherwise the floor quotient, with the remainder left in `num` |
| `ArithUint256.BaseUint.CompareTo` | EC_Sign/btcsign/arith_uint256.cpp:109-119 | the order of the numbers |
| `ArithUint256.BaseUint.BitLength` | EC_Sign/btcsign/arith_uint256.cpp:153-166 | the number of significant bits |
| `PageLocker.LockedPageManager.LockRange` | EC_Sign/btcsign/pagelocker.h:44-63 | afterwards the count of every page is the number of outstanding ranges on it, and the locked pages are those with a positive count; an empty range, wherever it lies, changes nothing |
| `PageLocker.LockedPageManager.UnlockRange` | EC_Sign/btcsign/pagelocker.h:66-86 | the same after an outstanding range is taken out; the assertion that its pages are known is proved, and an empty range changes nothing |
| `PageLocker.RunAll` | EC_Sign/btcsign/pagelocker.h:44-86 | the same over every matched run |
| `PageLocker.TouchedPages` | EC_Sign/btcsign/pagelocker.h:49-52 | the pages from that of the first address to that of the last are exactly those the range touches |
| `PageLocker.LoopEnds` | EC_Sign/btcsign/pagelocker.h:52 | the loop over the pages of a range ends if and only if the range does not reach the top page of the address space |
| `PageLocker.LockedPageManager.GetLockedPageCount` | EC_Sign/btcsign/pagelocker.h:89-93 | the number of locked pages |
| `Sha256Compression.ChoiceAndMajority` | EC_Sign/btcsign/sha256.cpp:17-18 | the code's Ch and Maj are those of section 4.1.2 of FIPS 180-4 |
| `Sha256Constants.Sigma0Bits` | EC_Sign/btcsign/sha256.cpp:19 | bit i of the result is the exclusive or of bits i + 2, i + 13 and i + 22 modulo 32 |
| `Sha256Constants.Sigma1Bits` | EC_Sign/btcsign/sha256.cpp:20 | likewise of bits i + 6, i + 11 and i + 25 |
| `Sha256Constants.LowerSigma0Bits` | EC_Sign/btcsign/sha256.cpp:21 | likewise of bits i + 7 and i + 18, and of bit i + 3 where there is one |
| `Sha256Constants.LowerSigma1Bits` | EC_Sign/btcsign/sha256.cpp:22 | likewise of bits i + 17 and i + 19, and of bit i + 10 where there is one |
| `Sha256Constants.FirstPrimes` | EC_Sign/btcsign/sha256.cpp:52-118 | the list of 64 numbers behind the constants starts with 2 and goes on with the next prime each time |
| `Sha256Constants.RoundConstants` | EC_Sign/btcsign/sha256.cpp:52-118 | section 4.2.2 of FIPS 180-4: each round constant is the first 32 bits of the fractional part of the cube root of its prime |
| `Sha256Constants.InitialWords` | EC_Sign/btcsign/sha256.cpp:34-44 | section 5.3.3 of FIPS 180-4: the initial words are the first 32 bits of the fractional parts of the square roots of the first eight primes |
| `Sha256Example.AbcDigest` | tag/blockchain_0.1/src/test/crypto_tests.cpp:114 | the digest of "abc" is the one that the tests expect, by the definitions of padding, schedule, rounds and output |
| `Sha256Compression.StepTo` | EC_Sign/btcsign/sha256.cpp:25-31 | a round under rotated register names is one step of the schedule |
| `Sha256Compression.WindowMoves` | EC_Sign/btcsign/sha256.cpp:69-118 | updating one of the sixteen words moves the window of the message schedule on |
| `Sha256Compression.Transform` | EC_Sign/btcsign/sha256.cpp:47-128 | the unrolled rounds compute the 64-round compression function of section 6.2 of FIPS 180-4 |
| `Sha256Compression.SwapLoads` | EC_Sign/btcsign/hash_impl.h:30-34 | the swapped little-endian load of the second implementation reads big-endian |
| `Sha256Compression.SwapStores` | EC_Sign/btcsign/hash_impl.h:30-34 | and its swapped store writes big-endian |
| `Sha256Compression.SwappingTransform` | EC_Sign/btcsign/hash_impl.h:49-129 | the second implementation, which swaps the sixteen words in memory, computes the same compression function |
| `Sha256.PaddingFills` | EC_Sign/btcsign/sha256.cpp:169-173 | the padding is that of section 5.1.1 of FIPS 180-4, fills the last block, and no shorter one does |
| `Sha256.CSHA256.Write` | EC_Sign/btcsign/sha256.cpp:141-165 | for every split of a message into writes the object stands for all that was written |
| `Sha256.CSHA256.Finalize` | EC_Sign/btcsign/sha256.cpp:167-182 | the digest of everything written, below 2^61 bytes |
| `Sha256.CSHA256.Reset` | EC_Sign/btcsign/sha256.cpp:184-189 | back to the empty message |
| `Sha256.Secp256k1Sha256.Write` | EC_Sign/btcsign/hash_impl.h:131-146 | the second implementation's writes, every block through the buffer and its own transform, keep what the object stands for |
| `Sha256.Secp256k1Sha256.Finalize` | EC_Sign/btcsign/hash_impl.h:148-162 | the same digest, from a swapped length and eight swapped words; the state is cleared |
| `Sha256.LengthHalves` | EC_Sign/btcsign/hash_impl.h:153-154 | the two halves of the length in bits |

## Left out

- AddrMan.AddrMan.Good_: the reference to an entry of `mapInfo` is its id; that the entry is still in the
  map wherever the reference is used is proved.
- AddrMan.AddrMan.Attempt_: counters of the C++ `int` type are unbounded here, as are ids and times.
- AddrMan.AddrMan.RefreshFields: service flags are the set of their bits.
- AddrMan.AddrMan.GetAddr_: the vector to fill starts empty, as at its caller.
- FieldElement.FeMulInt: the factor is not negative.
- FieldLimbs.MulInner: bit masks and shifts are remainders and quotients by powers of two, here and in
  the other limb code.
- ScalarReduction.Mul: the assembly branches are not modelled; they follow the same steps.
- GroupLimbs.GejLimbs.AddGeVar: the ratio of z is always returned, where the original may be given no
  place to store it; for an infinite first point the original forbids asking for it.
- TableLimbs.SetTableGejVar: `secp256k1_fe_inv` is any inverse of a nonzero element, and the scalar
  inverse likewise.
- OddMultiples.OddMultiplesTable: a table of `gej` structs is an array of values; an addition reads and
  writes its cells through objects that hold their contents.
- Ecmult.Context.constructor: the contexts are built once; cloning and clearing them is not modelled.
- WNaf.Recode: `carry << w` for w = 31 exceeds a C `int`; integers are unbounded here. The
  callers use widths 5 and 16. For lengths below 256, which only the endomorphism uses, the stripped
  scalar must leave the top bit of the length clear; length 0, with nothing to recode, is excluded.
- EcmultGen.BuildTable: the masking point, which the original finds by a square root, is any point whose
  table entries come out finite; the table in ecmult_static_context.h is data and not modelled.
- EcmultGen.GenContext.Blind: the pseudorandom generator's accepted outputs are parameters.
- Ecdsa.PubkeyLoad: the coordinates that a key object holds are below p, as `secp256k1_pubkey_save` leaves
  them.
- Ecdsa.Sign: the nonce function is a parameter; the loop of the original ends only if some attempt does
  stop it, so one that does is given.
- Ecdsa.SigVerify: the public key is finite, which `secp256k1_pubkey_load` guarantees.
- Der.SigParse: inputs are shorter than 2^31 bytes, so that lengths fit an `int`.
- Base58.DecodeBase58: a C string is its characters before the terminator, `isspace` is that of the C
  locale, and lengths do not overflow `size_t`.
- PageLocker.LockedPageManager.LockRange: the addresses of a range that is not empty, and of the page after
  it, must exist; LoopEnds shows what happens otherwise. The page mask is a remainder by the page size, and memory that
  the operating system refuses to lock is not modelled.
- Sha256Compression.MoreRounds: the updates of the sixteen words are grouped eight at a time before the
  rounds that use them, and the last two stores are dropped as in the original.
- Sha256Compression.SwappingTransform: the machine is little-endian, which is when the swap is made.
- `Select_`, `GetChance`, serialization and `Clear` of the address manager: probabilistic or plumbing.
- Square roots, point parsing and the key-tweaking interface: not part of the results above.
- USE_ENDOMORPHISM, the 10x26 and 8x32 limb layouts and the GMP wrapper: not selected by the
  configuration, or the same theorems with more limbs.
- HMAC, RFC 6979, SHA-512, RIPEMD-160, base64, hexadecimal conversions: the same shapes, only easier.
- Constant-time behaviour, cleansing of memory, locks and threads: not expressible in these contracts.
- AccountMgr, the user interface and the network: plumbing.
