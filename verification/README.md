# Pricing vectors, exchange and codecs of the ONRE offer program

A Dafny model of the arithmetic, the pricing schedule, the token ledger and the binary formats of the program and of its UI,
with proofs of what they guarantee. `dafny verify dfyconfig.toml` checks all of it.

An offer sells one token for another at a price that follows a schedule of *pricing vectors*. Each vector has a start, a base
price and a yearly rate; the vector that started last is active. The account has ten slots, so adding a vector first collects
old ones in place, keeping the active vector, the one before it and all later ones. A taker's amount is split into fee and net
input, the net input is converted at the active vector's price, and the tokens are burned, moved or minted under a supply cap.

## How it is organised

- `FixedPoint.dfy`: rounding multiplication and exponentiation by squaring, with error bounds and genuine overflow.
- `VectorPricing.dfy`: the program's daily-compounding step price. `OraclePrice.dfy`: the fuzz suite's simple-interest oracle.
- `Exchange.dfy`: fees and output amounts, their oracle versions, and arbitrary splits of a trade.
- `OfferVectors.dfy`, `OfferRuns.dfy`: lookup and collection in the slots, and whole runs against the unbounded log of
  everything added.
- `TokenLedger.dfy`: accounts, supplies and the exchange. `TakeOffer.dfy`: a take end to end, and runs that mix takes with
  vector instructions.
- `IntegerCodec.dfy`, `IdlCodec.dfy`, `IdlBytes.dfy`, `IdlReencode.dfy`: the UI's Borsh codec over IDL types, in both
  directions, and its bytes. `ByteLayout.dfy`, `StateAccount.dfy`: the state account read and patched by offset.
- `Dec9.dfy`: decimal text of nine-decimal numbers. `Ed25519.dfy`: the signature-instruction parser and the approval check.
- `Common.dfy`: machine integers and elementary facts about powers and division.

Where the source changes things in place or loops, there is a method (on an array or an object where the source has one)
proved equal to a function, and the theorems are about the function.

## What the proofs show that the documentation does not say

- The README promises compound interest. The program compounds daily (programs/onreapp/src/instructions/offer/offer_utils.rs,
  line 277 on); the fuzz oracle uses simple interest (trident-tests/fuzz_0/invariants.rs, lines 206-223). Both are modelled as
  written. `PublishedPricesCompared` says how far they part: up to two units within the first day; over any time the program is
  not below the oracle by more than a rounding term, it is above it once the compounding gain exceeds that term, and it is
  not above by more than the square of the simple growth while that stays below one.
- The program's price is not always non-decreasing: rounding can lower it by one unit at a day boundary
  (`PriceCanFallAtMidnight`). `PriceMonotoneIffMidnightsKept` gives the exact condition on the compounded day prices,
  `PriceFallsByAtMostOne` and `PriceFallBounded` bound the fall, and steps of whole days exclude it.
- `calculate_fees` casts the fee to 64 bits. Up to 100% this loses nothing; `FeesCharacterised` says exactly what the function
  returns above, and `TruncatedFee` gives an accepted example. This is about the function alone: every instruction that sets a
  fee admits at most 10% (programs/onreapp/src/instructions/offer/make_offer.rs, line 137), so none can configure such a rate.
- Collecting twice is the same as collecting once at the later time, except in one family of states (`CollectsTooEarly`): the
  vector being added starts at the first of the two times, nothing stored starts from then to the second, and two older starts
  remain. `CleaningConfluent` is an if-and-only-if, and `EarlyCollectionMatters` shows that the family is not empty.
- Deletion accepts future vectors only, and deleting all empties the log too, so the log refinement also holds over runs with
  deletions.
- The decoder of the UI reads an enum's index and no payload, and an empty string in an option is written as absent. Over the
  decodable types exactly the values without either come back (`RoundTripIffReadable`); and the decoder accepts bytes that the
  encoder would not write, `ReencodesIffCanonical` says which.

## Model

| member | source | states |
|---|---|---|
| FixedPoint.MulDivRound | programs/onreapp/src/utils/math_utils.rs:43-47 | A result exists exactly when the product plus half the divisor fits in 128 bits and the divisor is positive; it is the quotient rounded half up. |
| FixedPoint.RoundedIsNearest | programs/onreapp/src/utils/math_utils.rs:43-47 | The rounded quotient is the nearest integer, the upper of two equally near, and nothing else is. |
| FixedPoint.PowFixed | programs/onreapp/src/utils/math_utils.rs:29-41 | The in-place squaring loop, with its guard against squaring past the top bit, returns what the recursive checked squaring returns. |
| FixedPoint.PowerErrorBound | programs/onreapp/src/utils/math_utils.rs:29-47 | For base >= scale >= 1 and exponent >= 1 the power is base^exp / scale^(exp-1) within exp-1 relative errors of 1/(2*scale), below and above; exponent 1 is exact. |
| FixedPoint.ApproximatesProduct | programs/onreapp/src/utils/math_utils.rs:43-47 | One rounded product of two approximated powers approximates the power of the summed exponents: errors add up to one more. |
| FixedPoint.PowerCheckedExact | programs/onreapp/src/utils/math_utils.rs:29-47 | A checked power equals the power in unbounded arithmetic. |
| FixedPoint.PowerOverflowGenuine | programs/onreapp/src/utils/math_utils.rs:29-41 | For base >= scale, no result is returned only if the unbounded result r has (r+1)*scale > 2^128: overflow is never spurious. |
| FixedPoint.PowerMonotone | programs/onreapp/src/utils/math_utils.rs:29-47 | The computed power is monotone in the accumulator and in the base. |
| FixedPoint.PowerMonotoneInExponent | programs/onreapp/src/utils/math_utils.rs:29-47 | Despite rounding at every product, one more factor never lowers the computed power. |
| FixedPoint.ConsecutivePowers | programs/onreapp/src/utils/math_utils.rs:29-47 | The computed powers of n and n+1 differ by one factor of the base, up to 2n parts in 2*scale-1. |
| FixedPoint.PowerAtLeastLinear | programs/onreapp/src/utils/math_utils.rs:29-47 | Bernoulli's inequality for the rounding loop: with factors 1 + a/scale and 1 + b/scale the power is at least 1 + (a + b*exp)/scale, with no rounding loss. |
| FixedPoint.PowerAtLeastQuadratic | programs/onreapp/src/utils/math_utils.rs:29-47 | Beyond simple growth, every pair of factors adds at least the whole part of b^2/scale. |
| FixedPoint.PowerAtMostGeometric | programs/onreapp/src/utils/math_utils.rs:29-47 | The power is at most 1/(1 - x) in units of the scale, where x sums the increments of accumulator and base with one unit of rounding for every factor. |
| VectorPricing.DailyFactorExact | programs/onreapp/src/instructions/offer/offer_utils.rs:282-292 | A day's factor exceeds one by the rate over a million and 365, to the nearest of eighteen decimals. |
| VectorPricing.PriceOnDay | programs/onreapp/src/instructions/offer/offer_utils.rs:294-323 | The price s seconds into a day of 86400 seconds lies on the line from the day's price to that price times one factor, each rounded to the nearest unit. |
| VectorPricing.PriceIsUnbounded | programs/onreapp/src/instructions/offer/offer_utils.rs:277-330 | A price that is returned is the daily-compounded price, interpolated within the day, in unbounded arithmetic. |
| VectorPricing.PriceErrorGenuine | programs/onreapp/src/instructions/offer/offer_utils.rs:277-330 | A price is refused only when it exceeds 64 bits, or when the whole-day growth or the next day's price is beyond 128 bits in fixed point; one beyond 64 bits is always refused. |
| VectorPricing.PriceMonotoneWithinDay | programs/onreapp/src/instructions/offer/offer_utils.rs:310-323 | Within a day the price never falls. |
| VectorPricing.PriceMonotoneFromDayStart | programs/onreapp/src/instructions/offer/offer_utils.rs:294-323 | From a day boundary on the price never falls below its value there. |
| VectorPricing.PriceAtLeastBase | programs/onreapp/src/instructions/offer/offer_utils.rs:277-330 | No price is below the base price. |
| VectorPricing.MidnightKept | programs/onreapp/src/instructions/offer/offer_utils.rs:294-323 | The price does not fall at a midnight exactly when the next compounded day price reaches what the day heads for, less its last second's growth (rounded with halves down). |
| VectorPricing.PriceMonotoneIffMidnightsKept | programs/onreapp/src/instructions/offer/offer_utils.rs:294-323 | Up to any horizon the price is non-decreasing if and only if that condition on the compounded day prices holds for every midnight. |
| VectorPricing.MidnightUnderSmallNoise | programs/onreapp/src/instructions/offer/offer_utils.rs:294-323 | Under small rounding noise a midnight is kept exactly when the day grew by more than half a unit a second or the next day price reaches its target. |
| VectorPricing.GrowingVectorKeepsMidnight | programs/onreapp/src/instructions/offer/offer_utils.rs:294-323 | Under small rounding noise every midnight is kept when base price times daily increment alone exceeds half a unit a second and half a unit. |
| VectorPricing.PriceCanFallAtMidnight | programs/onreapp/src/instructions/offer/offer_utils.rs:378-401 | A concrete 1% APR vector whose price, also as published in steps of a second, drops by one unit at its eighth midnight. |
| VectorPricing.PriceFallsByAtMostOne | programs/onreapp/src/instructions/offer/offer_utils.rs:294-323 | While the accumulated rounding noise is small, no later price undercuts an earlier one by more than one unit. |
| VectorPricing.NoiseIsSmall | programs/onreapp/src/instructions/offer/offer_utils.rs:294-323 | The rounding noise is small for a century, prices up to 5000.0 and rates up to 18200%. |
| VectorPricing.PriceMonotoneWhenGrowthVisible | programs/onreapp/src/instructions/offer/offer_utils.rs:294-323 | ... and it does not fall at all when the day grows by more than half a unit a second. |
| VectorPricing.PriceFallBounded | programs/onreapp/src/instructions/offer/offer_utils.rs:294-323 | For any rate, price and 64-bit time, without an assumption on the noise: a later price is not below an earlier one by more than an explicit rounding term. |
| VectorPricing.StepPriceConstantOnStep | programs/onreapp/src/instructions/offer/offer_utils.rs:378-401 | At every time of step k, from base time plus kD up to base time plus its end (k+1)D, the result is the price at that end, or an overflow when it does not fit in 64 bits. |
| VectorPricing.StepPriceIsEndOfStep | programs/onreapp/src/instructions/offer/offer_utils.rs:378-401 | A step price is the compounded price at the end of the step the time lies in, and never below the base price; before the base time there is none, and a step of no length panics. |
| VectorPricing.StepPriceFallsOnlyAtMidnight | programs/onreapp/src/instructions/offer/offer_utils.rs:378-401 | For steps of any length a later step price is lower only if the midnight after the earlier step's end lies before the later end and is not kept. |
| VectorPricing.StepPriceMonotoneForWholeDays | programs/onreapp/src/instructions/offer/offer_utils.rs:378-401 | When the step is a whole number of days the published price never falls, for every rate. |
| OraclePrice.SimpleInterestExact | trident-tests/fuzz_0/invariants.rs:206-223 | Simple interest counts the rate in parts per million of 365 days of 86400 seconds and rounds down. |
| OraclePrice.PriceCharacterised | trident-tests/fuzz_0/invariants.rs:181-230 | Exactly when the oracle returns a price, and which: simple interest at the step end, failing only for a step end or a price beyond 64 bits. |
| OraclePrice.FactorNeverOverflows | trident-tests/fuzz_0/invariants.rs:206-223 | The 128-bit factor cannot overflow for any 64-bit inputs. |
| OraclePrice.PriceMonotone | trident-tests/fuzz_0/invariants.rs:181-230 | The oracle price never falls, also across the base time, and is never below the base price. |
| OraclePrice.PriceBracketed | trident-tests/fuzz_0/invariants.rs:181-230 | The step price lies between the exact simple-interest prices at the elapsed time and one duration later. |
| OraclePrice.NeverAgreeBeforeBaseTime | trident-tests/fuzz_0/invariants.rs:192-194 | Before the base time the oracle returns the base price and the program no price, so they never agree. |
| OraclePrice.AgreeWithoutRate | trident-tests/fuzz_0/invariants.rs:181-230 | Without a rate both return the base price, or both fail where the step end overflows. |
| OraclePrice.FirstDayAgreement | trident-tests/fuzz_0/invariants.rs:206-223 | Within the first day compounded and simple price differ by at most two units, and half a unit for every 10^18 of base price. |
| OraclePrice.ProgramAgainstSimpleInterest | trident-tests/fuzz_0/invariants.rs:206-223 | Over any time the compounded price makes up for simple interest plus the compounding gain, but for one and a half units and half a scale step per unit of price and day. |
| OraclePrice.CompoundingBounded | trident-tests/fuzz_0/invariants.rs:206-223 | While simple growth stays below one, the compounded price exceeds simple interest by at most the square of that growth relative to what it leaves of one, plus explicit rounding terms. |
| OraclePrice.ProgramAtMostCompounding | programs/onreapp/src/instructions/offer/offer_utils.rs:294-323 | For every time from the first day boundary on, the price is at most exact compounding with all its rounding errors upwards. |
| OraclePrice.PublishedPricesCompared | trident-tests/fuzz_0/invariants.rs:181-230 | The same for the published step prices, on both sides: within two units on the first day; at any time not below by more than a rounding term; strictly above once the compounding gain exceeds it; and, while simple growth stays below one, not above by more than its square and rounding terms. |
| OraclePrice.OracleDiffersFromProgram | trident-tests/fuzz_0/invariants.rs:206-223 | One vector on which oracle and program publish different prices. |
| Exchange.FeesCharacterised | programs/onreapp/src/utils/token_utils.rs:241-259 | The fee is the exact fraction rounded up, and the split succeeds with it, exactly when the rate is at most 100% or the amount is zero; otherwise what the 64-bit cast makes of it. |
| Exchange.FeesExact | programs/onreapp/src/utils/token_utils.rs:241-259 | At any rate: which fee and rest are returned, exactly; the fee is the rounded-up fraction modulo 2^64 and must not exceed the amount. |
| Exchange.TruncatedFee | programs/onreapp/src/utils/token_utils.rs:241-259 | As a function, a 200% rate on the largest amount is accepted with a truncated fee; no instruction configures such a rate. |
| Exchange.FeeAgainstOracle | trident-tests/fuzz_0/invariants.rs:150-151 | Up to 100% the program's ceiling fee exceeds the oracle's floor fee by one, or by zero exactly when 10000 divides amount times rate. |
| Exchange.TokenOutExact | programs/onreapp/src/utils/token_utils.rs:143-182 | An output is returned exactly when the input is worth that many whole units, rounded down and not zero, at a price counted in billionths, with decimals up to 18 and both products within 128 bits. |
| Exchange.TokenOutRefused | programs/onreapp/src/utils/token_utils.rs:143-182 | Every refusal in the order of the checks: zero price, decimals beyond 18, a product beyond 128 bits, an output beyond 64 bits, an output of zero. |
| Exchange.UnitPrice | programs/onreapp/src/constants.rs:88-89 | At a price of 1.0 between tokens of equal decimals an amount buys itself, whenever the product fits; otherwise the refusal is the overflow. |
| Exchange.TokenOutAgreesWithOracle | trident-tests/fuzz_0/invariants.rs:233-262 | The program returns an amount exactly when the oracle returns the same positive amount and both decimals are at most 18. |
| Exchange.Net | programs/onreapp/src/utils/token_utils.rs:241-259 | The net input is the exact net fraction rounded down. |
| Exchange.SplitNet | programs/onreapp/src/utils/token_utils.rs:241-259 | Splitting an amount into n pieces loses between 0 and n-1 units of net input. |
| Exchange.FloorSuperadditive | programs/onreapp/src/utils/token_utils.rs:165-175 | The sum of floored conversions is at most the floored conversion of the sum. |
| Exchange.FloorLoss | programs/onreapp/src/utils/token_utils.rs:165-175 | n floored conversions lose less than n units of output in all. |
| Exchange.SplittingNeverPays | programs/onreapp/src/utils/token_utils.rs:143-182 | For any list of amounts at one price and one fee, separate trades return at most the combined trade, and lose at most n-1 units of net input and n of output. |
| OfferVectors.FindActiveCharacterised | trident-tests/fuzz_0/utility.rs:4-11 | The lookup finds nothing exactly when nothing has started, and otherwise precisely the latest started vector, the last slot among ties. |
| OfferVectors.CleanOldVectors | trident-tests/fuzz_0/utility.rs:13-52 | The in-place loop leaves exactly the collected slots; the only panic is the underflow for a vector starting at time zero, added at time zero. |
| OfferVectors.CleaningIsACut | trident-tests/fuzz_0/utility.rs:21-51 | Collection equals one cut: everything before the kept previous vector goes, everything from it on stays in its slot. |
| OfferVectors.CleaningPreservesLookup | trident-tests/fuzz_0/utility.rs:13-52 | With ties or without, a lookup after collection is unchanged if and only if its time is at or after the cut or it found nothing before. |
| OfferVectors.CleaningConfluent | trident-tests/fuzz_0/utility.rs:13-52 | Collecting at t1 and again at t2 leaves the same slots as collecting at t2 alone, unless and only unless the vector being added starts at t1 < t2, nothing stored starts in [t1, t2], and two different older starts are stored. |
| OfferVectors.EarlyCollectionMatters | trident-tests/fuzz_0/utility.rs:13-52 | A concrete state in that family, where the two differ. |
| OfferRuns.FindIndex | programs/onreapp/src/instructions/offer/offer_utils.rs:415-420 | The slot found is the first with the start asked for; nothing found means no slot has it. |
| OfferRuns.Offer.AddOfferVector | programs/onreapp/src/instructions/offer/add_offer_vector.rs:115-171 | The slots and the outcome of validating, collecting and filling the first empty slot, on the account's array; `AdditionOutcome` and `AdditionStored` say what these are. |
| OfferRuns.Offer.DeleteOfferVector | programs/onreapp/src/instructions/offer/delete_offer_vector.rs:89-115 | The slots and the outcome of deleting a strictly future vector by its start. |
| OfferRuns.Offer.DeleteAllOfferVectors | programs/onreapp/src/instructions/offer/delete_all_offer_vectors.rs:86-111 | All slots end up empty, and the number reported is the number that were in use. |
| OfferRuns.Offer.ProcessEvent | programs/onreapp/src/instructions/offer/add_offer_vector.rs:115-171 | One instruction in its transaction: a failed one leaves the slots as they were. |
| OfferRuns.SameValidation | programs/onreapp/src/instructions/offer/add_offer_vector.rs:186-224 | Input validation cannot tell the slots from the log of everything added. |
| OfferRuns.CutoffOfLog | programs/onreapp/src/instructions/offer/add_offer_vector.rs:238-257 | Collection cuts the log at the vector before the one active now. |
| OfferRuns.StepSimulates | programs/onreapp/src/instructions/offer/add_offer_vector.rs:115-171 | Each instruction has the same outcome on slots and log and keeps the slots exactly the uncut part of the log. |
| OfferRuns.RunSimulates | programs/onreapp/src/instructions/offer/add_offer_vector.rs:115-171 | ... hence every run with a clock that never goes back does. |
| OfferRuns.OfferRefinesLog | trident-tests/fuzz_0/invariants.rs:422-469 | For every run of additions and deletions and every time from now on, slots and log give the same active vector and the same vector before it. |
| OfferRuns.SearchMatchesLive | programs/onreapp/src/instructions/offer/add_offer_vector.rs:148-150 | After collection an empty slot exists exactly when the future vectors, the active one and the one before it number less than ten. |
| OfferRuns.CapacityOfReachableOffers | programs/onreapp/src/instructions/offer/add_offer_vector.rs:145-153 | In every reachable state a valid addition is refused exactly when those vectors number ten or more, so never with at most seven in the future. |
| OfferRuns.AdditionOutcome | programs/onreapp/src/instructions/offer/add_offer_vector.rs:115-224 | Every outcome of an addition in the order of the checks, the eleventh vector included; what is appended is a vector with exactly the given base time, price, rate and duration, starting as given or else at the later of clock and base time. |
| OfferRuns.AdditionStored | programs/onreapp/src/instructions/offer/add_offer_vector.rs:115-171 | In every reachable state the slots answer the same; after a success they hold that vector and a lookup at its start finds it, after a failure they are as before. |
| OfferRuns.DeletionOutcome | programs/onreapp/src/instructions/offer/delete_offer_vector.rs:89-115 | Only a stored vector that lies strictly in the future is deleted, and no other slot changes; deleting all empties every slot. |
| TokenLedger.Bank.constructor | programs/onreapp/src/utils/token_utils.rs:352-404 | The object starts with exactly the given accounts and supplies. |
| TokenLedger.Bank.TransferTokens | programs/onreapp/src/utils/token_utils.rs:100-122 | State and outcome of a checked transfer; onto the same account it moves nothing. |
| TokenLedger.Bank.MintTokensTo | programs/onreapp/src/utils/token_utils.rs:287-316 | State and outcome of a mint under the per-mint limit and the cap, judged by the supply seen when the mint was loaded. |
| TokenLedger.Bank.BurnTokens | programs/onreapp/src/utils/token_utils.rs:327-344 | State and outcome of a burn. |
| TokenLedger.Bank.ExecuteTokenOperations | programs/onreapp/src/utils/token_utils.rs:437-567 | The stepwise method leaves the state and the outcome of the exchange, also where it stops part of the way. |
| TokenLedger.ExecuteConserves | programs/onreapp/src/utils/token_utils.rs:437-567 | For any aliasing among the accounts, and wherever the exchange stops, every supply stays the sum of its balances. |
| TokenLedger.ExecuteMoves | programs/onreapp/src/utils/token_utils.rs:437-567 | The exact change of every balance and every supply in a successful exchange, for any aliasing. |
| TokenLedger.PayerPaysNetAndFee | programs/onreapp/src/utils/token_utils.rs:437-567 | With separate accounts the payer loses net plus fee, the fee account gains the fee, the burn account is unchanged, refill plus proceeds is the net amount unless it is burned, and the supplies change by exactly what is burned and minted. |
| TokenLedger.BurningSucceeds | programs/onreapp/src/utils/token_utils.rs:437-567 | In a conserved ledger the burning path succeeds exactly without refill and with net plus fee in the source, for any aliasing. |
| TokenLedger.TransferringSucceeds | programs/onreapp/src/utils/token_utils.rs:437-567 | For any aliasing the transferring path succeeds exactly when the refill fits in the net amount and has a destination, and the source covers refill, proceeds and fee in turn; for a source that is no destination that is net plus fee. |
| TokenLedger.ExecuteSucceeds | programs/onreapp/src/utils/token_utils.rs:437-567 | For any aliasing and any mints an exchange succeeds if and only if the guards, the funds, the supply cap and the mint limit allow it. |
| TokenLedger.ExecuteChecked | programs/onreapp/src/utils/token_utils.rs:437-567 | In any ledger a successful exchange had no transfer fees, used accounts of the right mints, and minted within the limit and, from the supply before it, within the cap. |
| TokenLedger.MintRefused | programs/onreapp/src/utils/token_utils.rs:268-316 | Why a mint is refused: the limit first, then an overflow or the cap, judged by the supply seen; the ledger is unchanged. |
| TokenLedger.StepWithinCap | programs/onreapp/src/utils/token_utils.rs:268-316 | A transaction that raises a supply minted that token, ends at or below the cap in force, and raised it by at most the per-mint limit. |
| TokenLedger.RunKeepsInvariants | programs/onreapp/src/utils/token_utils.rs:268-316 | Over any run supplies stay the sums of balances, and a supply minted under caps that may change never exceeds the larger of their bound and its start. |
| TakeOffer.QuoteExact | programs/onreapp/src/instructions/offer/offer_utils.rs:116-156 | A quote is returned if and only if the amount is positive and the latest started vector gives one, and it is that one: the compounded price at the end of the step counted from the base time, the ceiling fee modulo 2^64, the rest, and what that buys. |
| TakeOffer.QuoteSound | programs/onreapp/src/instructions/offer/offer_utils.rs:116-156 | A quote splits the amount without loss, its fee up to 100% is the fraction rounded up, its price is that of the step's end and at least the base price, and its output the largest worth no more than the net input. |
| TakeOffer.TakeExact | programs/onreapp/src/instructions/offer/take_offer.rs:362-442 | In a conserved ledger with accounts of the right mints a take succeeds with a quote if and only if that is the quote, the accounts exist, no mint has a transfer fee, the user can pay net and fee, and the output is within limit, cap and width or in the vault; a failed take leaves the ledger as it was. |
| TakeOffer.TakeWithinLimits | programs/onreapp/src/instructions/offer/take_offer.rs:392-420 | In any ledger: a take that mints keeps to the per-mint limit and to the supply cap, without transfer fees and with accounts of the right mints. |
| TakeOffer.TakeMoves | programs/onreapp/src/instructions/offer/take_offer.rs:362-442 | The exact change of every balance and every supply in a successful take, for any aliasing among the accounts. |
| TakeOffer.UserPaysAmountForQuote | programs/onreapp/src/instructions/offer/take_offer.rs:362-442 | Between separate accounts the user pays exactly the offered amount and gets exactly the quoted output; the boss gets the amount, or the fee when the net is burned; the supplies move accordingly. |
| TakeOffer.TakeConserves | programs/onreapp/src/instructions/offer/take_offer.rs:362-442 | A take, successful or not, keeps every supply the sum of its balances. |
| TakeOffer.StepRelated | programs/onreapp/src/instructions/offer/take_offer.rs:362-442 | Each vector instruction or take has the same outcome and ledger on the slots as on the log. |
| TakeOffer.CollectionIsInvisible | programs/onreapp/src/instructions/offer/take_offer.rs:362-442 | Over any run mixing vector instructions and takes, every outcome, quote and balance is what it would be if no vector were ever collected. |
| TakeOffer.RunConserves | programs/onreapp/src/instructions/offer/take_offer.rs:362-442 | Over any such run every supply stays the sum of its balances. |
| TakeOffer.RunWithinCap | programs/onreapp/src/instructions/offer/take_offer.rs:419-420 | Over any such run, when all takes that can mint a token are under caps, its supply never exceeds the largest cap or where it started. |
| IntegerCodec.EncodeInteger | scripts/ui/src/idl-codec.ts:177-189 | The shifting loop writes the little-endian digits of v mod 256^n for every integer, negative ones included. |
| IntegerCodec.DecodeInteger | scripts/ui/src/idl-codec.ts:191-203 | The accumulating loop returns the unsigned value or its two's-complement representative. |
| IntegerCodec.IntegerRoundTrip | scripts/ui/src/idl-codec.ts:177-203 | Encoding then decoding is the identity exactly on the type's range, and outside it gives the congruent number in range. |
| IntegerCodec.BytesRoundTrip | scripts/ui/src/idl-codec.ts:177-203 | Decoding then encoding is the identity on every byte string. |
| IdlCodec.FindNormalized | scripts/ui/src/idl-codec.ts:65-85 | The variant resolved is the first whose normalised name matches. |
| IdlCodec.FindExact | scripts/ui/src/idl-codec.ts:49-63 | The index written is that of the first variant with the resolved name. |
| IdlCodec.DecodeType | scripts/ui/src/idl-codec.ts:118-154 | The decoder with its loops returns what the recursive decoder returns. |
| IdlCodec.DecodeVec | scripts/ui/src/idl-codec.ts:118-154 | The vector loop with its moving cursor reads the items in sequence and stops at the first error. |
| IdlCodec.DecodeStruct | scripts/ui/src/idl-codec.ts:156-175 | The struct loop reads the fields in declaration order; a repeated name keeps the last value. |
| IdlCodec.EncodeSucceeds | scripts/ui/src/idl-codec.ts:7-63 | Every well-typed value of an encodable type is encoded, arrays and enum payloads included. |
| IdlCodec.RoundTrip | scripts/ui/src/idl-codec.ts:118-175 | Wherever the encoding of a readable value stands in a buffer, decoding there yields the value and leaves the cursor exactly behind it. |
| IdlCodec.UnreadableIsLost | scripts/ui/src/idl-codec.ts:118-175 | Every other value of a decodable type comes back as a different value or as an error. |
| IdlCodec.RoundTripIffReadable | scripts/ui/src/idl-codec.ts:118-175 | Over the values of a decodable type, decode inverts encode if and only if no option holds an empty string and no enum has a payload, at any depth. |
| IdlCodec.DecodeInvertsEncode | scripts/ui/src/idl-codec.ts:7-63 | Between any prefix and any suffix, decoding what was encoded gives the value and consumes exactly its bytes. |
| IdlCodec.VariantRoundTrip | scripts/ui/src/idl-codec.ts:156-175 | An enum value without payload survives through its index byte, whatever payloads other variants have. |
| IdlCodec.EncodingsPrefixFree | scripts/ui/src/idl-codec.ts:7-63 | No encoding of a type is a proper prefix of another, and different values differ. |
| IdlCodec.ArgumentsUnambiguous | scripts/ui/src/idl-codec.ts:87-95 | Concatenated encodings of values of given types can be read back in one way only, whatever follows. |
| IdlCodec.ReturnDataRead | scripts/ui/src/idl-codec.ts:101-116 | The offset-0 candidate reads a bare payload whole, alone up to eight bytes; the offset-8 candidate reads one behind a discriminator whole. |
| IdlCodec.OptionReadBack | scripts/ui/src/idl-codec.ts:7-34 | An option of any decodable type comes back exactly unless it holds the empty string, which comes back as absent. |
| IdlCodec.EnumReadBack | scripts/ui/src/idl-codec.ts:156-175 | For any enum, also with colliding names, what is read is the variant the normalised name resolves to, modulo 256, and one byte; so a value comes back exactly when it has no payload and that variant's name. |
| IdlCodec.PlainVariantReadBack | scripts/ui/src/idl-codec.ts:156-175 | With distinct normalised names a value comes back exactly when its payload is empty. |
| IdlBytes.IntegerBytes | scripts/ui/src/idl-codec.ts:36-47 | Integers are written as the low 1, 2, 4 or 8 base-256 digits, the lowest first, for every integer, negative ones included. |
| IdlBytes.OtherPrimitiveBytes | scripts/ui/src/idl-codec.ts:36-47 | A bool is one byte of 0 or 1, a key its 32 bytes, a string four bytes of length and its bytes. |
| IdlBytes.PrimitiveRanges | scripts/ui/src/idl-codec.ts:209-223 | The values of each primitive type, by its bounds. |
| IdlBytes.PrimitivesRead | scripts/ui/src/idl-codec.ts:118-130 | What any bytes are read as: numbers of 1, 2, 4 and 8 bytes, the 8 signed ones in two's complement, any byte but 0 as true, 32 bytes as a key. |
| IdlBytes.StringRead | scripts/ui/src/idl-codec.ts:118-130 | A string is as many bytes as its length says, or those that are left, and the cursor moves by the length. |
| IdlBytes.ReadingPastTheEnd | scripts/ui/src/idl-codec.ts:118-154 | Behind the end of the buffer numbers read as zero, a bool as true, the rest as empty or absent, and the cursor moves on all the same. |
| IdlBytes.NormalizedCharacter | scripts/ui/src/format.ts:5-7 | Names are compared without underscores and hyphens and in lower case, and every other character counts, wherever it stands. |
| IdlBytes.CodecRefusals | scripts/ui/src/idl-codec.ts:49-175 | Which error is returned for an undefined type, an array of another length, an array to decode, a name that matches no variant and an index beyond the variants. |
| IdlReencode.CanonicalReencodes | scripts/ui/src/idl-codec.ts:118-175 | Bytes that read nothing past the end, hold only 0 or 1 as bools and option tags, no absent value or empty string in a present option and no enum variant with payload are decoded, to a value whose encoding they are. |
| IdlReencode.EncodingIsCanonical | scripts/ui/src/idl-codec.ts:7-63 | The encoder writes only such bytes for the values that can be read back. |
| IdlReencode.DecodedHasType | scripts/ui/src/idl-codec.ts:118-175 | Whatever the decoder returns is of the type, if it can be encoded at all. |
| IdlReencode.ReencodesIffCanonical | scripts/ui/src/idl-codec.ts:7-175 | Of all bytes that can be decoded, exactly those are what the decoded value encodes to again. |
| StateAccount.EncodedFixedSize | scripts/ui/src/idl-codec.ts:7-47 | Types without strings, options, vectors or defined types encode to a length independent of the value. |
| StateAccount.FieldAt | scripts/ui/src/idl-codec.ts:49-63 | In a struct of such fields each field is encoded at its own offset, whatever the values. |
| StateAccount.FieldUpdate | scripts/ui/src/idl-codec.ts:49-63 | Changing one such field overwrites its bytes in the encoding and leaves every other byte alone. |
| StateAccount.StateLayout | programs/onreapp/src/state.rs:10-38 | Position and offset of the five key fields of the state account, and its total of 938 bytes. |
| StateAccount.OffsetsMatchLayout | scripts/ui/src/account-decoders.ts:5-42 | For every state, encoding it behind an 8-byte discriminator and reading by fixed offsets returns its boss, proposed boss, mint, worker and main offer. |
| StateAccount.PatchStateAccount | scripts/ui/src/main.ts:945-957 | The in-place patch succeeds exactly for buffers of at least 890 bytes and otherwise changes nothing. |
| StateAccount.PatchIsStateUpdate | scripts/ui/src/main.ts:956-957 | The patched account is the account of the state with the new boss and worker: no other byte differs. |
| ByteLayout.OverwriteChanges | scripts/ui/src/main.ts:956-957 | Writing a part at an offset puts it there and changes nothing else. |
| Dec9.U64ToDec9 | programs/onreapp/src/utils/token_utils.rs:199-212 | The zero-popping loop returns whole part, point and trimmed nine-digit fraction, or the whole part alone. |
| Dec9.ReadInvertsFormat | programs/onreapp/src/utils/token_utils.rs:199-212 | Reading the text as a nine-decimal fixed-point number gives the number back; a fraction is there exactly when the number is not whole, has at most nine digits and no trailing zero. |
| Dec9.FormatInjective | programs/onreapp/src/utils/token_utils.rs:199-212 | Different numbers have different texts. |
| Dec9.CanonicalIsPrinted | programs/onreapp/src/utils/token_utils.rs:199-212 | Of all decimal texts of a number, the printed one is exactly the one without superfluous leading and trailing zeros. |
| Ed25519.ParseSoundAndComplete | programs/onreapp/src/utils/ed25519_parser.rs:35-87 | The parser returns a key and a message exactly when the data describes one signature whose header, key and message lie in this instruction, as the header says. |
| Ed25519.ParseInvertsBuild | programs/onreapp/src/utils/ed25519_parser.rs:35-87 | Key, message and signature placed at any in-range, separate offsets, in any order and over any buffer, are found again. |
| Ed25519.BuildVerifyInstruction | programs/onreapp/tests/common/ed25519.rs:15-37 | Appending field by field gives the documented header followed by key, signature and message. |
| Ed25519.ClientMessageReadBack | programs/onreapp/tests/common/ed25519.rs:20-37 | The parser returns the message a client put in exactly when its length fits the 16-bit size field. |
| Ed25519.MessageRoundTrip | programs/onreapp/src/utils/approver/message.rs:14-22 | A byte string deserializes to a message exactly when it is that message's serialization. |
| Ed25519.ApprovalSoundAndComplete | programs/onreapp/src/utils/approver/approver_utils.rs:36-97 | An approval is accepted if and only if the timestamp, as unsigned 64 bits, is not after the expiry, the claim is for this program and user, and the previous instruction verifies one signature, by an approver whose key is not all zeros, over exactly the serialized claim. |
| Ed25519.BadClaimRefused | programs/onreapp/src/utils/approver/approver_utils.rs:44-53 | A claim out of date, for another program or for another user is refused as such, in this order, whatever has been signed. |
| Ed25519.NoSignatureRefused | programs/onreapp/src/utils/approver/approver_utils.rs:55-73 | What a good claim is answered when the previous instruction is missing, of another program, has accounts, or describes no signature. |
| Ed25519.SignatureAnswered | programs/onreapp/src/utils/approver/approver_utils.rs:75-94 | What a good claim is answered for each key and message that the previous instruction verifies, in the order of the checks. |
| Ed25519.InstructionsUnambiguous | programs/onreapp/src/utils/ed25519_parser.rs:35-87 | The bytes of an instruction fix its header, key and message: no data describes two. |
| Ed25519.OneClaimPerInstruction | programs/onreapp/src/utils/approver/approver_utils.rs:36-97 | One signed instruction approves one claim, for one program and one user, only. |
| Ed25519.ClientApproval | programs/onreapp/src/utils/approver/approver_utils.rs:36-97 | What a client builds for a claim is accepted if and only if the claim is good and the key is that of a set approver. |

## Left out

- VectorPricing.PriceFallsByAtMostOne: stated while `SmallRoundingNoise` holds, which a century, prices up to 5000.0 and rates up
  to 18200% meet; outside it `PriceFallBounded` gives the larger bound.
- VectorPricing.StepPriceMonotoneForWholeDays: for steps that are not whole days the price can fall at a midnight that is not
  kept, and only there (`StepPriceFallsOnlyAtMidnight`).
- OraclePrice.PublishedPricesCompared: once simple growth reaches one, the upper side is `ProgramAtMostCompounding`, against exact
  compounding.
- OfferVectors.CleaningPreservesLookup: excludes a vector starting at time zero added at time zero, where the program panics.
- OfferRuns.CapacityOfReachableOffers: excludes the same case.
- TokenLedger.ExecuteSucceeds: in a conserved ledger, with accounts of the mints they are used for, as the account constraints
  demand.
- TokenLedger.PayerPaysNetAndFee: for separate accounts; `ExecuteMoves` covers every aliasing.
- TakeOffer.TakeExact: in a conserved ledger, with accounts of the mints they are used for; `TakeWithinLimits` holds in any.
- TakeOffer.UserPaysAmountForQuote: for separate accounts; `TakeMoves` covers every aliasing.
- IdlCodec.RoundTrip: for decodable types: no arrays, which the decoder refuses, distinct field names and distinct normalised
  variant names. `EnumReadBack` covers colliding variant names.
- Ed25519.ParseInvertsBuild: the signature bytes are placed and stay in place, but the parser does not return them.
- The Solana and Anchor runtime: instruction dispatch, account constraints, signers, derived addresses, associated accounts,
  signer seeds, rent, events and logs. A failed instruction is rolled back in `Process`, `Step` and `Take`.
- SPL token effects are taken as a checked transfer (a self-transfer moves nothing), a mint and a burn; decimals checks and frozen
  accounts are not modelled. Whether a mint has a transfer fee and whether the program controls it are parameters.
- Accounts and mints are indices, so the checks that an account is the expected one, and the comparison of an offer's mints
  with the given ones, do not appear; an index without an account is an error in `Take`.
- The offer account is modelled as its vector slots; the enabled and approval flags, fee setting and the second take variant
  with refill from market statistics are not.
- The clock is a parameter; a run requires that it never goes back.
- Cryptography: that the runtime has verified the signature named by the previous instruction. Base58, UTF-8 and case folding
  beyond ASCII: keys and strings are byte sequences.
- JavaScript coercions in the UI codec: a value that is not of the expected kind is an error here; numbers and strings that
  stand for the same integer are one integer; a key decoded past the end of a buffer stays short instead of failing.
- IDL type definitions that contain themselves: a rank of the definitions is required. Named and tuple enum fields are one
  positional payload.
- The other account decoders, seeds and display helpers of the UI; `mul_basis_points_floor`; administration and kill-switch
  instructions; buffer accrual, redemption, proprietary market making and market statistics.
