# Verified model of the Overpass wrapper venue and its route program

The Overpass venue wraps deposits into five lending sources behind one wrapper token. A quoter prices
deposits and withdrawals, finds the range of amounts worth quoting and tabulates marginal prices; an
on-chain program then executes routes made of such legs. This project models the arithmetic and the state
of both sides in Dafny and proves what a holder, a router or an auditor would want to rely on.

Check it with `dafny verify dfyconfig.toml`.

## The modules

| file | what it models |
|---|---|
| `Arith.dfy`, `Outcome.dfy`, `Fixed.dfy` | floors, ceilings and powers; error returns; machine integers and 60-bit fixed point |
| `Checked.dfy`, `WrapperShares.dfy` | deposit fees, the value-per-share guard, wrapper shares against intermediate tokens |
| `KlendCurve.dfy`, `KlendCompound.dfy`, `KlendReserve.dfy` | a klend reserve: rate curve, truncated compounding, accrual, share conversions |
| `KlendQuote.dfy`, `KlendRuns.dfy` | klend quotes in closed form, and whole histories of a vault over a reserve |
| `Bounds.dfy`, `PriceTable.dfy`, `MeanValue.dfy` | boundary search, price table, and the documented mean value property of its prices |
| `Venue.dfy` | the venue that composes them with klend quotes |
| `Wad.dfy`, `Save.dfy` | 18-decimal fixed point with square-and-multiply; Save accrual and quotes |
| `Marginfi.dfy`, `MarginfiRuns.dfy` | 48-bit fixed point, the seven-point curve, share values and quotes; whole histories of a vault over a bank |
| `Lulo.dfy` | positions with a pending fee, predicted values and quotes |
| `Kvault.dfy`, `KvaultQuote.dfy` | AUM and fees over several klend reserves, the cached update, quotes with disinvestment |
| `Examples.dfy` | quotes, accruals and a leg of each kind worked out to the atom |
| `Bitmap.dfy`, `Router.dfy`, `RouteCodec.dfy` | the tracked-account bitmap, the route with arbitrary venues, account layout and wire format |

## How the source is rendered

- Expressions with early returns are functions into `Result`, one error constructor per refusal of the
  source. Loops are methods with invariants, proved equal to a recursive function that the lemmas are
  about. State that the source updates through `&mut` is a class (`LiveReserve`, `LiveBank`, `LiveVault`,
  `OverpassVenue`, `TitanPdaBitmap`) or an array rewritten in place.
- Integers carry their width as subset types. An operation that leaves its width is an error
  (`Overflow`, `Underflow`, `DoesNotFit`), as in a build that traps. The quoter's release profile wraps
  instead; wherever a theorem starts from a successful quote or accrual no operation has left its width,
  so the two builds agree there. Unchecked casts of the source are modelled as the truncations they are:
  `Wad.ToFloorU64`, the low 128 bits of a Lulo profit and the 64-bit cast of its fee, the one-byte account
  count of a leg, the 32-bit length of a route.
- Fixed-point numbers are their bits: `Fraction` is a natural below 2^128 with `ONE` equal to 2^60, `wad`
  values count 10^-18, and marginfi values are non-negative I80F48 bits.
- Clocks, decoded accounts, source positions and venue behaviour are parameters. Venue calls in the route
  are arbitrary functions of the leg, the balances and the amount.
- `hide` statements keep definitions out of proofs that do not need them.

## What is proved

**Share accounting over whole histories.** `KlendRuns` runs a vault through any list of wrapper deposits,
withdrawals, accruals, and other holders joining and leaving the reserve. Starting from an empty vault, at
take rates up to 100%, supply and holding vanish together, neither exchange rate falls while the vault is
non-empty, what a fixed number of wrapper shares redeems for never falls, and the two bookkeeping errors of
the quotes are unreachable. `MarginfiRuns` proves the same over a marginfi bank whose other users and
administrator may change anything but the vault's own position and the asset share value. In klend quotes the
256-bit double-shift division is one exact floor, "deposit > net" cannot fire, and the guard never objects.

**Interest.** Compounding never exceeds the exact power and never falls below simple interest, for every number
of periods, and is short of the exact power (Save, and klend up to four periods) or of the four terms klend
computes of it only by stated roundings; it is monotone, and an accrual splits new debt exactly between fees and
shares. A marginfi accrual grows the asset share value at the base rate on the part lent out and the liability
share value at the base rate with the fees, the first no faster than the second. The piecewise-linear curves of
klend, Save and marginfi are bounded, monotone, and on their straight lines but for roundings.

**Boundaries and prices.** For a range of usable amounts the search returns exactly that range shrunk to a grid
of powers of two and multiples of 64, which above 2^63 is shifted down by one or two. The price table is positive
and non-increasing and, when every edge quotes, covers every gain between its edges; it is empty exactly when the
output rises between no two neighbouring edges that quote. The documented mean value property, over every
interval, is characterised exactly. Composed with klend quotes, the venue's bounds and prices carry these facts
for withdrawals and for deposits with one fee not charged; with both fees, an amount inside the bounds that does
not quote is one net atom off.

**The other sources.** The guard rejects no klend, Save, marginfi or Lulo quote, and its rejections of
kvault quotes are characterised exactly; redemptions and deposits stay within their pro-rata shares and reach them
but for stated roundings; cached kvault quotes equal quotes from the raw accounts.

**The route.** Whatever venues do, a route succeeds only if every tracked account below index 256 keeps its
starting balance, and when it succeeds and what it returns is characterised exactly; with venues that take only
what a leg offers, the final check cannot fail. A leg offers its weight's part of what lies above the reserve, and
no other amount can matter to a route. Account layout and wire format round trip in both directions.

## Where the code and its documentation differ

- `src/trading_venue/bounds.rs:245-252` promises the exact maximal range. The loops stop at width 100
  (lines 164 and 227), so the result is the range shrunk to the grid, exact if and only if both ends lie on
  it (`Bounds.FindRange`). Against the end of the integers, which is odd, the halving drifts off the multiples of
  64 by one after a power of two and by two elsewhere; the last integer itself is found only by a range that
  starts above 2^62 (`Bounds.EndsAt`). A range without a power of two is not found at all; a vault of 127 shares
  of which 65 are worth one token has such a range (`Venue.MissedVault`).
- `src/trading_venue/mod.rs:257-268` asks the prices at both ends of every interval to bracket its chord. The
  table does so exactly when the output runs straight between the grid edges and is flat throughout, or
  rising and concave (`MeanValue.MeanValueIff`); a straight window gains a whole number of atoms per atom
  (`MeanValue.StraightIsWhole`). Both halves fail for a vault that redeems half an atom per share
  (`Venue.HalvedVault`, `MeanValue.HalvedFails`), and at a convex kink (`MeanValue.KinkedFails`). Between grid
  edges alone chords are bounded from above always when every edge quotes (`PriceTable.GainWithinPrice`), and
  between neighbouring edges of a rising grid from below exactly when the sampled outputs are concave
  (`PriceTable.BracketsIffConcave`).
- `src/trading_venue/mod.rs:255-257` asks for a positive price of every valid quote. Prices are positive for every
  amount or for none: exactly when two neighbouring edges quote and the output rises between them
  (`MeanValue.PositiveIffSomeGain`, `Venue.OverpassVenue.QuotePositive`). Where everything between the bounds
  quotes and never falls, that is when the outputs at the two bounds differ (`MeanValue.PositiveIffGains`).
- `src/trading_venue/mod.rs:252-253` asks outputs to be non-decreasing. Deposit quotes are, for every reserve
  and vault, exactly when one of the two fees is not charged or both take everything but single atoms
  (`KlendRuns.DepositsMonotoneIff`); at 50 basis points each, 199 atoms quote 199 shares and 200 quote 198
  (`KlendRuns.QuoteDips`). A larger deposit nets at most one atom less and mints less by at most what an atom
  is worth (`KlendQuote.DepositNearlyMonotone`).
- `src/trading_venue/bounds.rs:248-250` describes accepted amounts without gaps. Accepted deposits have none, for
  every reserve and vault, exactly when one of the two fees is not charged, or together they exceed 100% and
  single net atoms come in a row (`KlendRuns.DepositsGaplessIff`); at a deposit limit of 198 and 50 basis points each, 198
  and 200 are accepted and 199 is not (`KlendRuns.DepositGap`). Between two accepted deposits one is refused only
  if it nets one atom less than the smaller or one more than the larger, or nothing
  (`KlendQuote.DepositNearlyInterval`).
- A deposit and an immediate redemption give back at most the deposit, except in a reserve without shares
  that still holds at least one token, where the first holder receives it (`KlendRuns.RoundTrip`,
  `KlendRuns.SharelessReserveWindfall`; likewise `KvaultQuote.VaultRoundTrip`).
- The guard of a kvault quote compares the position the shares were priced at with the recorded holding. A
  withdrawal quotes only while the position is not above the record: once it has outgrown it, nothing can be
  withdrawn (`KvaultQuote.WithdrawGuardExact`). A deposit is rejected exactly when the position has outgrown
  the record by more than the remainder of the mint's floor (`KvaultQuote.DepositGuardExact`).

## Model

| member | source | states |
|---|---|---|
| `Checked.NetAmountSucceeds` | src/your_venue/klend/math.rs:389-397 | with fee rates of at most 100% together the net amount never fails |
| `Checked.NetAmountNearlyMonotone` | src/your_venue/common/checked.rs:25-41 | a larger deposit nets at most one atom less, and never less when either rate is zero, at any rates |
| `Checked.NetMonotoneIff` | src/your_venue/klend/math.rs:389-394 | with rates of at most 100% together net amounts are monotone if and only if one rate is zero |
| `Checked.NetDip` | src/your_venue/klend/math.rs:389-394 | any two positive rates of at most 100% together dip from 9999 to 10000 atoms |
| `Checked.OneAtomDip` | src/your_venue/klend/math.rs:389-393 | with two fees of 50 bps, 199 nets 199 and 200 nets 198 |
| `Checked.MintPassesGuard` | src/your_venue/common/checked.rs:6-23 | shares minted with a floor never trip the value-per-share guard |
| `Checked.BurnPassesGuard` | src/your_venue/common/checked.rs:6-23 | tokens paid with a floor never trip the guard |
| `WrapperShares.SharesForBounds` | src/your_venue/klend/math.rs:417-430 | the minted wrappers are one floor, worth at most the added tokens |
| `WrapperShares.TokensForBounds` | src/your_venue/klend/math.rs:475-481 | redeemed tokens are one floor, at most the holding, failing only on overflow |
| `WrapperShares.BurnTogether` | src/your_venue/klend/math.rs:515-521 | burning empties supply and holding together or neither, and keeps the ratio |
| `WrapperShares.SharesGiveBackAtMost` | src/your_venue/klend/math.rs:417-440 | freshly minted shares stand for at most the tokens that paid for them |
| `KlendCurve.UtilBps` | src/your_venue/klend/math.rs:31-39 | the basis points are the nearest whole number to the capped utilization, ties up, and at most 10000 |
| `KlendCurve.LookupBorrowRate` | src/your_venue/klend/math.rs:53-75 | the scanning loop computes the curve that the following rows are about |
| `KlendCurve.ScanStops` | src/your_venue/klend/math.rs:57-74 | on a well-formed curve the scan stops at the first point not below the rounded utilization |
| `KlendCurve.SegmentBounds` | src/your_venue/klend/math.rs:62-71 | interpolating the unrounded utilization stays between the rates of the two points |
| `KlendCurve.SegmentMono` | src/your_venue/klend/math.rs:62-71 | along one segment the rate never falls |
| `KlendCurve.RateBetweenPoints` | src/your_venue/klend/math.rs:30-76 | every curve point bounds the rates on both of its sides |
| `KlendCurve.BorrowRateBounds` | src/your_venue/klend/math.rs:30-76 | the rate lies between the first and the last rate |
| `KlendCurve.BorrowRateMonotone` | src/your_venue/klend/math.rs:30-76 | the rate is monotone in utilization although it snaps by rounded and interpolates by unrounded utilization |
| `KlendCurve.SegmentOnLine` | src/your_venue/klend/math.rs:62-71 | along a segment the rate is on the straight line at the unrounded utilization, but for roundings |
| `KlendCurve.BorrowRateOnCurve` | src/your_venue/klend/math.rs:30-76 | every rate is a point's own or on the line between two neighbouring points |
| `KlendCompound.PerUnit` | src/your_venue/klend/fraction.rs:71 | the per-period rate times the periods of a year stays within one year of the yearly rate |
| `KlendCompound.CompoundMonotone` | src/your_venue/klend/fraction.rs:66-94 | a lower rate never fails where a higher one succeeds and compounds to no more |
| `KlendCompound.CompoundAtLeastSimple` | src/your_venue/klend/fraction.rs:66-94 | at least one plus n times the per-period rate, for every n |
| `KlendCompound.CompoundAtMostExact` | src/your_venue/klend/fraction.rs:66-94 | at most the exact power of one plus the per-period rate, for every n |
| `KlendCompound.TermRatio` | src/your_venue/klend/fraction.rs:89-91 | the recurrence that turns one expansion term into the next is that of the binomial expansion |
| `KlendCompound.FourTermsBelowPower` | src/your_venue/klend/fraction.rs:93 | four terms of the expansion never exceed the power |
| `KlendCompound.NextTermAbove` | src/your_venue/klend/fraction.rs:88-92 | a computed term is short of the exact one by its own two truncations and what the term before it lost |
| `KlendCompound.CompoundNearExact` | src/your_venue/klend/fraction.rs:66-94 | up to four periods growth is the exact power but for a last bit in every factor; beyond, at least the first four terms of the expansion less a stated rounding |
| `KlendReserve.LiveReserve.PreAccrue` | src/your_venue/klend/math.rs:219-232 | the stored reserve becomes the accrued one at the clock, or stays untouched on failure |
| `KlendReserve.TotalSupplyExact` | src/your_venue/klend/math.rs:78-99 | the stepwise checked supply is the exact one, failing only by overflow or when fees exceed assets |
| `KlendReserve.RemainingExact` | src/your_venue/klend/withdrawal_caps.rs:32-49 | what remains of a cap and what was spent in the interval under way make up the capacity, down to nothing; the 64-bit conversion never refuses |
| `KlendReserve.ElapsedExact` | src/your_venue/klend/math.rs:121-153 | units reach from the last update to the clock, in half seconds or seconds of a 365-day year |
| `KlendReserve.UtilizationExact` | src/your_venue/klend/math.rs:109-114 | utilization is the floored ratio of debt to supply |
| `KlendReserve.AccrualBalances` | src/your_venue/klend/math.rs:198-216 | debt growth equals fee growth plus supply growth exactly; debt, fees and (take rate up to 100%) supply never fall |
| `KlendReserve.SharesKeepTheirPart` | src/your_venue/klend/math.rs:201-209 | of interest beyond the host's part the shares keep what the take rate leaves, within a stated rounding |
| `KlendReserve.DebtCompounds` | src/your_venue/klend/math.rs:180-201 | debt grows at least by simple interest and at most by exact compounding of the curve's rate at the reserve's own utilization plus the host's rate, and is short of that only by roundings, or beyond four periods of its first four terms |
| `KlendReserve.AccrualUnderflowsOnlyWhenInsolvent` | src/your_venue/klend/math.rs:180-209 | accrual underflows if and only if fees already exceed everything the reserve holds |
| `KlendReserve.AccrualIdempotent` | src/your_venue/klend/math.rs:159-178 | accruing again at the same clock changes nothing |
| `KlendReserve.ExchangeRatePair` | src/your_venue/klend/math.rs:234-240 | both sides of the rate are positive and the shares fit 64 bits |
| `KlendReserve.LiquidityToCollateralExact` | src/your_venue/klend/math.rs:242-261 | two 256-bit shifts, a division and a floor collapse to one exact floor, with the exact failure conditions |
| `KlendReserve.CollateralToLiquidityCeilExact` | src/your_venue/klend/math.rs:263-289 | rounding up twice is one exact ceiling, succeeding exactly when that fits |
| `KlendReserve.CollateralToLiquidityExact` | src/your_venue/klend/math.rs:291-314 | rounding down twice is one exact floor, with the exact failure conditions |
| `KlendReserve.BooksFailArithmetically` | src/your_venue/klend/math.rs:159-217 | accrual and supply never fail for any reason but arithmetic or an unknown rate basis |
| `KlendQuote.DepositExact` | src/your_venue/klend/math.rs:399-448 | when a deposit is accepted (if and only if) and every amount in it, in closed form; "deposit > net" and the guard never reject |
| `KlendQuote.DepositOpensExact` | src/your_venue/klend/math.rs:361-399 | a whole deposit quote is accepted if and only if the reserve is open, the books can be computed and the net amount is accepted at the reserve's own rate |
| `KlendQuote.WithdrawExact` | src/your_venue/klend/math.rs:451-529 | when a withdrawal is accepted (if and only if) and its payout, in closed form; the guard never rejects |
| `KlendQuote.WithdrawAtExact` | src/your_venue/klend/math.rs:490-527 | the part after the exchange rate is known: free liquidity and withdrawal cap decide |
| `KlendQuote.PayoutMono` | src/your_venue/klend/math.rs:475-490 | the payout never falls with the amount |
| `KlendQuote.WithdrawInterval` | src/your_venue/klend/math.rs:451-529 | accepted withdrawals have no gaps and pay positive, non-decreasing amounts |
| `KlendQuote.MintedMonotone` | src/your_venue/klend/math.rs:399-430 | at one exchange rate more net liquidity never mints fewer shares |
| `KlendQuote.MintedPerAtom` | src/your_venue/klend/math.rs:399-430 | one more net atom mints at most the shares an atom is worth, both roundings included |
| `KlendQuote.DepositNearlyMonotone` | src/your_venue/klend/math.rs:389-448 | a larger deposit nets at most one atom less, mints less by at most an atom's worth, and with either fee zero mints no less |
| `KlendQuote.DepositInterval` | src/your_venue/klend/math.rs:361-449 | with either fee zero accepted deposits have no gaps and mint positive, non-decreasing amounts |
| `KlendQuote.DepositNearlyInterval` | src/your_venue/klend/math.rs:361-449 | at any rates a deposit between two accepted ones is refused only if its net amount is one atom off theirs, or none |
| `KlendQuote.ZeroNotQuoted` | src/your_venue/klend/math.rs:369-371 | zero is refused in both directions, which the boundary search relies on |
| `KlendRuns.DepositKeeps` | src/your_venue/klend/math.rs:361-449 | a deposit keeps the books sound and lowers neither exchange rate |
| `KlendRuns.WithdrawKeeps` | src/your_venue/klend/math.rs:451-530 | a withdrawal keeps the books sound and, unless it empties the vault, lowers neither rate |
| `KlendRuns.JoinKeeps` | src/your_venue/klend/math.rs:242-289 | collateral sold to another depositor does not lower the reserve's rate |
| `KlendRuns.LeaveKeeps` | src/your_venue/klend/math.rs:291-314 | collateral redeemed by another holder neither lowers the rate nor digs into what backs the vault |
| `KlendRuns.OthersKeep` | src/your_venue/klend/math.rs:242-314 | others joining or leaving keep the books sound and lower neither rate |
| `KlendRuns.AccrueKeeps` | src/your_venue/klend/math.rs:219-232 | accrual keeps the books sound and lowers neither rate |
| `KlendRuns.StepKeeps` | src/your_venue/klend/math.rs:361-530 | every step, failed ones included, keeps the invariant and both rates |
| `KlendRuns.RunStaysSound` | src/your_venue/klend/math.rs:361-530 | over every run supply and holding vanish together and the holding is backed by the reserve |
| `KlendRuns.RunKeepsRates` | src/your_venue/klend/math.rs:361-530 | over every run that never empties the vault neither exchange rate falls |
| `KlendRuns.RedemptionNeverFalls` | src/your_venue/klend/math.rs:475-490 | what a fixed wrapper amount redeems for never falls over such a run |
| `KlendRuns.NoHistoryLosesValue` | src/your_venue/klend/math.rs:361-530 | from an empty vault, after any history, no further non-emptying history loses value |
| `KlendRuns.BookkeepingErrorsUnreachable` | src/your_venue/klend/math.rs:420-422 | from an empty vault "ctokens out of sync" and "no ctokens" (472-474) are never returned |
| `KlendRuns.RoundTrip` | src/your_venue/klend/math.rs:399-490 | redeeming exactly the minted shares pays at most the deposit's cost if and only if the reserve had shares or held less than a token |
| `KlendRuns.SharelessReserveWindfall` | src/your_venue/klend/math.rs:234-240 | a concrete shareless reserve holding 5 turns a deposit of 10 into 15 |
| `KlendRuns.DepositsMonotoneIff` | src/your_venue/klend/math.rs:389-448 | deposit quotes are non-decreasing for every reserve and vault if and only if one fee is zero or both reach 100% |
| `KlendRuns.QuoteDips` | src/your_venue/klend/math.rs:361-449 | at 50 bps each 199 atoms quote 199 and 200 quote 198 |
| `KlendRuns.DepositsGaplessIff` | src/your_venue/klend/math.rs:361-449 | over all reserves and vaults accepted deposits have no gaps if and only if one fee is zero, or the two exceed 100% together and single net atoms come in a row |
| `Bounds.FirstUsable` | src/trading_venue/bounds.rs:69-90 | finds the least usable power of two, or shows that none below 2^64 is usable |
| `Bounds.FirstUnusableAbove` | src/trading_venue/bounds.rs:92-114 | brackets the end of the usable powers above a usable one |
| `Bounds.FindBoundariesCoarse` | src/trading_venue/bounds.rs:66-117 | both brackets, within 65 probes |
| `Bounds.RefineLower` | src/trading_venue/bounds.rs:134-180 | keeps an unusable lower and a usable upper end, ends at width 100 or on the 64-grid, within 60 probes |
| `Bounds.RefineUpper` | src/trading_venue/bounds.rs:196-243 | keeps a usable lower and an unusable upper end, ends at width 100 or on the 64-grid, within 60 probes |
| `Bounds.MarkMiddle` | src/trading_venue/bounds.rs:227-240 | halving against the last integer probes one below the first middle and two below every other |
| `Bounds.EndsAtOnce` | src/trading_venue/bounds.rs:245-252 | a range determines its upper bound |
| `Bounds.FindBoundaries` | src/trading_venue/bounds.rs:258-281 | under 200 probes; `NoQuotableValue` if and only if no power of two is usable; never `BoundarySearchFailed`; usable ends with an unusable amount within 100 of each |
| `Bounds.LowerEdgeIsGridUp` | src/trading_venue/bounds.rs:134-180 | over a usable range the lower bound is its start rounded up to the grid |
| `Bounds.UpperEdgeIsGridDown` | src/trading_venue/bounds.rs:196-243 | over a usable range the upper bound is its end rounded down to the grid |
| `Bounds.FindRange` | src/trading_venue/bounds.rs:245-281 | a range is found if and only if it holds a power of two, its ends are rounded to the grid, beyond 2^63 too, and it is exact if and only if both lie there |
| `Bounds.MissedRange` | src/trading_venue/bounds.rs:245-281 | the valid range 65 to 127 is reported as not quotable |
| `PriceTable.Edges` | src/your_venue/mod.rs:208-216 | pushing halvings, sorting and deduplicating gives the ascending edges |
| `PriceTable.EdgesTo` | src/your_venue/mod.rs:208-216 | edges strictly ascend from the lower to the upper bound |
| `PriceTable.EdgesAre` | src/your_venue/mod.rs:208-216 | an amount is an edge if and only if it is a bound or a halving of the upper bound above the floor and the lower bound |
| `PriceTable.CollectChords` | src/your_venue/mod.rs:218-226 | the window loop collects exactly the rising chords in order |
| `PriceTable.RaiseToSuffixMaxima` | src/your_venue/mod.rs:227-232 | the in-place backward pass computes the suffix maxima of the old contents |
| `PriceTable.PriceParts` | src/your_venue/mod.rs:198-234 | the whole table, empty without bounds or with collapsed ones |
| `PriceTable.SuffixMaximaAre` | src/your_venue/mod.rs:227-233 | every slope is attained at or after its place and none after it is larger; starts are unchanged |
| `PriceTable.TableWellShaped` | src/your_venue/mod.rs:198-234 | strictly ascending starts, positive and non-increasing slopes |
| `PriceTable.PriceNonIncreasing` | src/your_venue/mod.rs:434-440 | the reported price never rises with the amount and is positive when the table is not empty |
| `PriceTable.GainWithinPrice` | src/your_venue/mod.rs:218-233 | when every edge quotes, the gain between any two grid edges is at most the price at the left one times the distance |
| `PriceTable.BracketsIffConcave` | src/your_venue/mod.rs:227-233 | between neighbouring edges of a rising grid, prices at right edges are at most the chords if and only if the sampled outputs are concave |
| `MeanValue.MeanValueIffSteps` | src/trading_venue/mod.rs:259-268 | every interval is bracketed if and only if every step of one atom is |
| `MeanValue.KeptPriceIsWhole` | src/trading_venue/mod.rs:259-268 | the property forces a price that stays the same for a step to be that step's whole gain |
| `MeanValue.MeanValueIff` | src/trading_venue/mod.rs:257-268 | over every interval of a quoting range the documented property holds if and only if outputs run straight between the edges and are flat, or rising and concave |
| `MeanValue.StraightIsWhole` | src/trading_venue/mod.rs:257-268 | a straight window gains a whole number of atoms per atom |
| `MeanValue.HalvedFails` | src/trading_venue/mod.rs:257-268 | both halves of the property fail for outputs of half the input, on a rising and concave grid |
| `MeanValue.KinkedFails` | src/trading_venue/mod.rs:257-268 | a convex kink fails the lower half at the edges although outputs run straight |
| `MeanValue.PositiveIffSomeGain` | src/trading_venue/mod.rs:255-257 | for any quote, prices are positive if and only if two neighbouring edges quote and the output rises between them, else all zero |
| `MeanValue.PositiveIffGains` | src/trading_venue/mod.rs:255-257 | for non-decreasing outputs a price is positive, and the table not empty, if and only if the range gains |
| `Venue.OverpassVenue.UpdateState` | src/your_venue/mod.rs:389-407 | the new books are kept with both tables priced over the bounds found for them |
| `Venue.OverpassVenue.QuotePrices` | src/your_venue/mod.rs:410-467 | after an update quotes never fail, their prices are not negative and never rise, and they are usable exactly where the books quote |
| `Venue.OverpassVenue.QuotePositive` | src/trading_venue/mod.rs:255-257 | after an update a direction's prices are positive if and only if two neighbouring edges between its bounds quote and gain, whatever the fees |
| `Venue.OverpassVenue.QuoteRange` | src/your_venue/mod.rs:410-467 | inside the bounds gapless quotes are liquid and non-decreasing, priced positively if and only if the range gains, with the mean value property if and only if straight and concave |
| `Venue.VenueBounds` | src/trading_venue/mod.rs:293-308 | none exactly when no power of two quotes; else quoting ends next to amounts that do not quote, on the grid; for withdrawals, and deposits with a fee not charged, the quotable range on the grid |
| `Venue.RangeAround` | src/your_venue/mod.rs:441-458 | the amounts quoted with a positive output form one range, for withdrawals and for deposits with a fee not charged |
| `Venue.BoundsSound` | src/your_venue/mod.rs:441-458 | every such amount inside the bounds quotes positively and monotonically; nothing quotes 64 or more beyond them |
| `Venue.DepositInside` | src/trading_venue/bounds.rs:245-252 | with any fees, a deposit inside the bounds quotes or is one net atom off them, or nets nothing |
| `Venue.PriceCoversGain` | src/your_venue/mod.rs:430-440 | for such quotes every edge quotes, so reported prices cover every gain between edges |
| `Venue.MissedVault` | src/trading_venue/mod.rs:293-308 | a vault whose withdrawals quote exactly from 65 to 127 is reported as not quotable |
| `Venue.HalvedVault` | src/your_venue/mod.rs:410-467 | a vault that redeems half an atom per share has bounds 2 and 8, and the mean value property fails between them |
| `Wad.ComputeWadPow` | src/your_venue/save/wad.rs:48-62 | the loop over base, accumulator and exponent computes the power the following rows are about |
| `Wad.WadPowAtLeastSimple` | src/your_venue/save/wad.rs:48-62 | for bases of at least one, at least simple growth |
| `Wad.WadPowAtMostExact` | src/your_venue/save/wad.rs:48-62 | never above the exact power in spite of the order of the truncations |
| `Wad.WadPowNearExact` | src/your_venue/save/wad.rs:48-62 | and short of it only by a last digit in every factor, for any exponent |
| `Wad.WadPowMonotoneInBase` | src/your_venue/save/wad.rs:48-62 | non-decreasing in the base, and succeeding where a larger base does |
| `Wad.WadPowStep` | src/your_venue/save/wad.rs:48-62 | one more period never compounds to less, through any run of carried bits |
| `Wad.WadPowMonotoneInExponent` | src/your_venue/save/wad.rs:48-62 | non-decreasing in the exponent, and succeeding where a larger exponent does |
| `Save.RateMonotone` | src/your_venue/save/math.rs:86-121 | across the three pieces the rate never falls and stays between the lowest and the highest |
| `Save.BorrowRateMonotone` | src/your_venue/save/math.rs:79-122 | a reserve with rising configuration never charges less when it is used more, and never fails to |
| `Save.UtilizationExact` | src/your_venue/save/math.rs:65-77 | utilization is the floored part of debt in all that the reserve counts on |
| `Save.BorrowRateOnPiece` | src/your_venue/save/math.rs:79-122 | the rate is on the straight piece between the reserve's own percentages, but for roundings |
| `Save.LiveReserve.PreAccrue` | src/your_venue/save/math.rs:49-55 | the stored reserve becomes the accrued one at the slot, or stays untouched on failure |
| `Save.DebtCompounds` | src/your_venue/save/math.rs:29-34 | debt grows at least by simple interest and at most by exact compounding of the slot's rate, and is short of that only by an atom and a last digit in every factor |
| `Save.FeesTakeTheirRate` | src/your_venue/save/math.rs:35-41 | of new interest the protocol takes its percentage, one floor, saturating only at 128 bits |
| `Save.DebtMonotoneInTime` | src/your_venue/save/math.rs:29-46 | debt and fees never fall as slots pass, and an earlier slot succeeds where a later one does |
| `Save.SupplyNeverFalls` | src/your_venue/save/math.rs:34-41 | at take rates up to 100% accrual never lowers the supply |
| `Save.ExchangeRateExact` | src/your_venue/save/math.rs:124-130 | the exchange rate is the floored ratio of collateral to supply, one to one on an empty side |
| `Save.BuysItsPart` | src/your_venue/save/math.rs:124-136 | liquidity buys its pro-rata part of the collateral within a stated rounding, one to one on an empty side |
| `Save.RedeemsItsPart` | src/your_venue/save/math.rs:124-145 | collateral redeems for its pro-rata part of the supply within a stated rounding |
| `Save.DepositExact` | src/your_venue/save/math.rs:147-218 | when a deposit is accepted (if and only if), and that it mints the pro-rata floor of the collateral its net amount buys |
| `Save.PlanAtExact` | src/your_venue/save/math.rs:179-215 | the part after the exchange rate is known: accepted if and only if the sizes fit, with every amount in closed form |
| `Save.WithdrawExact` | src/your_venue/save/math.rs:220-276 | when a withdrawal is accepted (if and only if), and that it pays the redeemed collateral's pro-rata part |
| `Save.DepositGuardNeverRejects` | src/your_venue/save/math.rs:204-215 | the guard rejects no Save deposit |
| `Save.WithdrawGuardNeverRejects` | src/your_venue/save/math.rs:260-273 | the guard rejects no Save withdrawal |
| `Save.ConversionNeverGains` | src/your_venue/save/math.rs:132-145 | liquidity to collateral and back at one rate never gains, unchecked casts included |
| `Save.SameRateRoundTrip` | src/your_venue/save/math.rs:179-199 | redeeming the minted shares at the deposit's own rate pays at most the net amount |
| `Marginfi.InterestRateMultipointCurve` | src/your_venue/marginfi/math.rs:418-439 | the loop over used points computes the curve the following rows are about |
| `Marginfi.LerpBounds` | src/your_venue/marginfi/math.rs:441-471 | a rising segment never refuses, stays between its ends and hits its right end exactly |
| `Marginfi.CurveBounds` | src/your_venue/marginfi/math.rs:418-439 | a climbing curve refuses no utilization and stays between its end rates |
| `Marginfi.RateMonotone` | src/your_venue/marginfi/math.rs:418-439 | higher utilization never has a lower base rate, unused points skipped |
| `Marginfi.RateOnLine` | src/your_venue/marginfi/math.rs:418-471 | the base rate is on the straight line between two neighbouring used points, but for roundings |
| `Marginfi.KnotScale` | src/your_venue/marginfi/math.rs:473-480 | points travel as fractions of the greatest 32-bit number, rates up to tenfold |
| `Marginfi.LiveBank.PreAccrue` | src/your_venue/marginfi/math.rs:233-239 | share values and clock are replaced together or not at all, the share values grow as AccrualExact says, and a second accrual finds the same values |
| `Marginfi.AccrualExact` | src/your_venue/marginfi/math.rs:241-283 | over the time passed the asset value grows at the curve's rate on the part lent out and the liability value at that rate with the fees, each bracketed to its roundings, and up to full utilization the first no faster than the second |
| `Marginfi.ShareValuesNeverFall` | src/your_venue/marginfi/math.rs:241-283 | neither share value falls under accrual |
| `Marginfi.GrowthExact` | src/your_venue/marginfi/math.rs:514-527 | a share value's growth factor is linear in the seconds passed, in one floor |
| `Marginfi.LendingAtMostBorrowing` | src/your_venue/marginfi/math.rs:374-382 | up to full utilization lenders earn at most the base rate, and borrowers pay at least that and the fixed fees |
| `Marginfi.GrowthMonotone` | src/your_venue/marginfi/math.rs:514-527 | a higher rate grows a share value by at least as much, and a lower one succeeds wherever it does |
| `Marginfi.MintExact` | src/your_venue/marginfi/math.rs:108-114 | three nested fixed-point truncations are one floor |
| `Marginfi.DepositGuardNeverRejects` | src/your_venue/marginfi/math.rs:97-134 | the guard rejects no deposit, and the mint is the exact pro-rata floor |
| `Marginfi.DepositExact` | src/your_venue/marginfi/math.rs:36-137 | what a deposit needs to be accepted, and its bank shares and mint as floors at the accrued share value, below the bank's limit |
| `Marginfi.DepositAccepted` | src/your_venue/marginfi/math.rs:36-137 | nothing more is needed for a deposit than what DepositExact lists and a mint that fits |
| `Marginfi.DepositAtExact` | src/your_venue/marginfi/math.rs:92-134 | when the mint is accepted, if and only if, in sizes |
| `Marginfi.QuoteDepositNeverRejectedByGuard` | src/your_venue/marginfi/math.rs:36-137 | no deposit quote at all ends in the guard's error |
| `Marginfi.WithdrawExact` | src/your_venue/marginfi/math.rs:172-208 | a payout is two floors in closed form and leaves assets covering liabilities |
| `Marginfi.WithdrawAccepted` | src/your_venue/marginfi/math.rs:139-225 | nothing more is needed for a withdrawal than a running bank, sizes that fit and a bank that can pay |
| `Marginfi.PaysExact` | src/your_venue/marginfi/math.rs:183-208 | the bank pays if and only if at least an atom is due, the sizes fit and its liabilities stay covered |
| `Marginfi.WithdrawGuardNeverRejects` | src/your_venue/marginfi/math.rs:139-225 | no withdrawal quote ends in the guard's error |
| `MarginfiRuns.DepositKeeps` | src/your_venue/marginfi/math.rs:36-137 | a deposit lowers neither the bank shares behind a wrapper share nor their value |
| `MarginfiRuns.WithdrawKeeps` | src/your_venue/marginfi/math.rs:139-225 | nor does a withdrawal, which empties supply and position together or neither |
| `MarginfiRuns.RunKeepsRates` | src/your_venue/marginfi/math.rs:36-239 | over every run that keeps the vault non-empty neither falls |
| `MarginfiRuns.BookkeepingErrorsUnreachable` | src/your_venue/marginfi/math.rs:97-160 | from an empty vault no run leads to a quote that finds supply without a position |
| `MarginfiRuns.NoHistoryLosesValue` | src/your_venue/marginfi/math.rs:36-239 | after any history, over any non-emptying future, what fixed wrapper shares redeem for never falls, and a withdrawal quoted then pays no less |
| `Lulo.FeeWithinBothGains` | src/your_venue/lulo/math.rs:11-47 | the pending fee is within the referral rate of both gains, and zero when either gain is |
| `Lulo.FeeReachesOneGain` | src/your_venue/lulo/math.rs:11-47 | and it reaches the rate on the smaller of them, but for an atom of fee and one of profit |
| `Lulo.ValueWithinWorth` | src/your_venue/lulo/math.rs:49-70 | a position's value and its pending fee together stay within its worth at the pool's price |
| `Lulo.ValueReachesWorth` | src/your_venue/lulo/math.rs:49-70 | together they reach that worth but for an atom |
| `Lulo.PositionAfterPaysFee` | src/your_venue/lulo/math.rs:112-148 | the predicted position with the pending fee, or with the whole stake if that is less, is worth at most the old position and all idle underlying |
| `Lulo.PositionAfterReaches` | src/your_venue/lulo/math.rs:112-148 | nothing but the fee and two shares of rounding is taken out of it |
| `Lulo.PredictionWithinWorth` | src/your_venue/lulo/math.rs:149-173 | the predicted value is within that position's worth, and capped at what was there and what came in |
| `Lulo.PredictionReachesWorth` | src/your_venue/lulo/math.rs:149-173 | and it is that worth but for an atom unless it is capped |
| `Lulo.DepositNeverDilutes` | src/your_venue/lulo/math.rs:169-205 | a mint is the pro-rata floor of the credited value, never more than the deposit brought, and passes the guard |
| `Lulo.DepositExact` | src/your_venue/lulo/math.rs:72-208 | a deposit needs a running pool and half of what its limit leaves, and mints the pro-rata floor of what it adds to the value |
| `Lulo.DepositAccepted` | src/your_venue/lulo/math.rs:72-208 | and such a deposit is accepted if and only if it adds value that mints something |
| `Lulo.QuoteDepositNeverRejectedByGuard` | src/your_venue/lulo/math.rs:72-208 | no deposit quote ends in the guard's error |
| `Lulo.OwedWithinShare` | src/your_venue/lulo/math.rs:249-264 | the idle and the staked share together stay within the exiting fraction of the value |
| `Lulo.CeilPriceExact` | src/your_venue/lulo/math.rs:265-269 | the price kept back is one share's worth rounded up |
| `Lulo.WithdrawReachesShare` | src/your_venue/lulo/math.rs:210-295 | a partial exit pays the exiting fraction but for that price, an atom and stated roundings |
| `Lulo.WithdrawAccepted` | src/your_venue/lulo/math.rs:210-295 | a partial exit from a running pool is accepted if and only if something is owed, and pays that |
| `Lulo.OwedSucceeds` | src/your_venue/lulo/math.rs:247-273 | what is owed can be computed whenever the two products fit 128 bits |
| `Lulo.WithdrawNeverDilutes` | src/your_venue/lulo/math.rs:210-295 | a partial exit leaves a share price and an atom behind, never underflows and passes the guard |
| `Kvault.InvestedTotal` | src/your_venue/kvault/math.rs:265-275 | the accumulating loop sums what all allocations are worth, and fails exactly when that sum does |
| `Kvault.InvestedInExact` | src/your_venue/kvault/math.rs:277-294 | an allocation is worth its collateral at its reserve's accrued rate, one floor of the last bit |
| `Kvault.PerformanceWithinRate` | src/your_venue/kvault/math.rs:326-335 | the performance fee is the rate's part of new earnings, never more and at most a rounding less |
| `Kvault.ManagementWithinRate` | src/your_venue/kvault/math.rs:317-324 | the management fee is at most the yearly rate on the last AUM for the time passed |
| `Kvault.ManagementReachesRate` | src/your_venue/kvault/math.rs:317-324 | and at least that but for the roundings of rate, time and fee |
| `Kvault.AumFailsOnlyForPendingFees` | src/your_venue/kvault/math.rs:248-263 | the AUM fails for fees if and only if holdings are below the fees already pending; else it is the rest less both new fees, never below zero |
| `Kvault.PreAccrueAll` | src/your_venue/kvault/update.rs:110-112 | every cached reserve is accrued in place, and the pass fails exactly when accruing them in order does |
| `Kvault.CachedRate` | src/your_venue/kvault/update.rs:96-112 | accruing all reserves first finds the same reserve under every key, at the same rate |
| `Kvault.CachedInvested` | src/your_venue/kvault/math.rs:265-294 | the invested total is the same from accrued and from raw reserves |
| `Kvault.RefetchedFinds` | src/your_venue/kvault/update.rs:96-108 | under each allocation's key lies the reserve just fetched, or the copy cached before, and under no other key anything |
| `Kvault.PositionExact` | src/your_venue/kvault/update.rs:123-172 | the position is the one on record, or the idle shares and the stake's floored part of the farm |
| `Kvault.LiveVault.Update` | src/your_venue/kvault/update.rs:49-191 | the whole new vault: kept or replaced reserves, penalties and farm, accrued reserves, the position, cached AUM and room; on failure the old vault under the new clock |
| `Kvault.StakeExact` | src/your_venue/kvault/state.rs:282-309 | the three checked steps of the stake conversion are one floor of the stake's part of the farm |
| `Kvault.MaxDepositWithinCap` | src/your_venue/kvault/update.rs:180-188 | the cached room never lets a deposit lift the AUM above the cap |
| `Kvault.MaxDepositExact` | src/your_venue/kvault/update.rs:180-188 | and it is all the cap leaves in whole tokens, up to the most ever quoted |
| `KvaultQuote.DepositWithinShare` | src/your_venue/kvault/math.rs:25-93 | vault shares are at most the paid amount's part of the AUM, wrapper shares at most those shares' part of the position |
| `KvaultQuote.DepositExact` | src/your_venue/kvault/math.rs:13-94 | the user's amount, vault shares and wrapper shares of an accepted deposit, each one floor |
| `KvaultQuote.FundableCounts` | src/your_venue/kvault/math.rs:36-43 | crank funds are paid once for every allocation with a weight and a cap |
| `KvaultQuote.SharesToMintSucceeds` | src/your_venue/kvault/math.rs:344-365 | vault shares can be priced whenever the AUM in whole tokens and the shares fit 64 bits |
| `KvaultQuote.PurchaseAccepted` | src/your_venue/kvault/math.rs:13-60 | a purchase is accepted if and only if the amount after fees and crank funds is between the minimum and the cached room and buys some shares |
| `KvaultQuote.SharesWithinPart` | src/your_venue/kvault/math.rs:344-365 | pricing at the AUM rounded up never oversells shares |
| `KvaultQuote.VaultRoundTrip` | src/your_venue/kvault/math.rs:344-383 | redeeming new vault shares gives back at most what was paid, if and only if the vault had shares or held less than a token |
| `KvaultQuote.PrimaryIsLargest` | src/your_venue/kvault/math.rs:163-169 | the reserve drawn on holds the most collateral |
| `KvaultQuote.PrimaryIsLast` | src/your_venue/kvault/math.rs:163-169 | among equals it is the last allocation |
| `KvaultQuote.DisinvestCovers` | src/your_venue/kvault/math.rs:184-210 | the redeemed collateral is worth at least what is promised from it, capped or not |
| `KvaultQuote.DisinvestFewest` | src/your_venue/kvault/math.rs:184-210 | and no fewer collateral tokens would cover it |
| `KvaultQuote.DisinvestPays` | src/your_venue/kvault/math.rs:184-210 | the reserve gives what is asked for as far as its collateral's worth goes, or one token less |
| `KvaultQuote.DisinvestSucceeds` | src/your_venue/kvault/math.rs:184-210 | disinvesting fails if and only if the worth of the whole collateral does not fit, however much is wanted |
| `KvaultQuote.PayFromSucceeds` | src/your_venue/kvault/math.rs:155-211 | a payment succeeds if and only if idle tokens cover it or there is a source whose worth fits |
| `KvaultQuote.WithdrawWithinShare` | src/your_venue/kvault/math.rs:113-217 | payout and penalty together stay within the shares' part of the AUM, and the penalty reaches its rate and its floor |
| `KvaultQuote.WithdrawPaysDue` | src/your_venue/kvault/math.rs:96-235 | shares and gross amount are one floor each, the penalty its rate rounded up or its floor, and all that is due is paid as far as idle tokens and the primary allocation go, at most a token less |
| `KvaultQuote.RedemptionAccepted` | src/your_venue/kvault/math.rs:96-125 | a redemption is accepted if and only if its shares fit and are some, the AUM is there and the payout of them is |
| `KvaultQuote.PayoutAccepted` | src/your_venue/kvault/math.rs:127-217 | a payout is made if and only if its gross amount exceeds the penalty and what can be paid exceeds the vault's minimum |
| `KvaultQuote.MintGuardExact` | src/your_venue/kvault/math.rs:61-91 | the guard rejects a mint if and only if the position has outgrown the record by more than the floor's remainder |
| `KvaultQuote.DepositGuardExact` | src/your_venue/kvault/math.rs:13-94 | a deposit quote ends in the guard's error if and only if its purchase succeeds and that condition holds, never while the position is not above the record |
| `KvaultQuote.BurnGuardExact` | src/your_venue/kvault/math.rs:113-118 | the guard passes a burn if and only if the position is not above the record, with the exact error otherwise |
| `KvaultQuote.WithdrawGuardExact` | src/your_venue/kvault/math.rs:96-235 | a withdrawal quotes if and only if its redemption pays and the position is not above the record |
| `KvaultQuote.GrownPositionRejected` | src/your_venue/kvault/math.rs:86-91 | a position of 100 against a record of 50 is rejected both ways, an equal one is not |
| `KvaultQuote.CachingRefinesRecomputing` | src/your_venue/kvault/math.rs:237-246 | at the update's clock every deposit and withdrawal quote from the caches equals the one from the raw accounts |
| `Bitmap.SettingBit` | program-template/programs/titan-v3-venue-template/src/instructions/swap_route_v3.rs:681-689 | setting a bit of a word sets that bit and no other |
| `Bitmap.WordStaysInWidth` | program-template/programs/titan-v3-venue-template/src/instructions/swap_route_v3.rs:683 | a word with a bit set still fits 64 bits |
| `Bitmap.TitanPdaBitmap.Set` | program-template/programs/titan-v3-venue-template/src/instructions/swap_route_v3.rs:681-685 | exactly one more index is set, and none from 256 on |
| `Router.CreateMissing` | program-template/programs/titan-v3-venue-template/src/instructions/swap_route_v3.rs:101-129 | the loop creates and remembers exactly the accounts that are missing when it reaches them |
| `Router.CreationOnlyAdds` | program-template/programs/titan-v3-venue-template/src/instructions/swap_route_v3.rs:101-129 | afterwards every route account exists, what existed is untouched and what is new is empty |
| `Router.RecordBalances` | program-template/programs/titan-v3-venue-template/src/instructions/swap_route_v3.rs:131-148 | balances, reserves and bits recorded for exactly the tracked accounts; fails exactly when one is unreadable or not TitanPDA's |
| `Router.RecordedByRank` | program-template/programs/titan-v3-venue-template/src/instructions/swap_route_v3.rs:131-148 | the recorded balance of an account sits at the number of tracked accounts before it |
| `Router.RunLegs` | program-template/programs/titan-v3-venue-template/src/instructions/swap_route_v3.rs:207-251 | the loop over legs with its advancing account index, which the following rows are about |
| `Router.LegSpendsItsWeight` | program-template/programs/titan-v3-venue-template/src/instructions/swap_route_v3.rs:208-248 | a leg succeeds if and only if its accounts are there and its venue takes exactly the weight's floored part of what lies above the reserve, or there is no such part |
| `Router.WholeAndNoWeight` | program-template/programs/titan-v3-venue-template/src/instructions/swap_route_v3.rs:222-229 | a full weight spends all above the reserve, no weight never calls the venue |
| `Router.LegsSpendTheirWeights` | program-template/programs/titan-v3-venue-template/src/instructions/swap_route_v3.rs:207-251 | a run of legs is the same with any venues that agree on the amounts their weights call for |
| `Router.LegsFitAccounts` | program-template/programs/titan-v3-venue-template/src/instructions/swap_route_v3.rs:207-251 | legs take their accounts one after the other, and no run succeeds with too few for all |
| `Router.LegKeepsReserves` | program-template/programs/titan-v3-venue-template/src/instructions/swap_route_v3.rs:221-248 | a leg of a compliant venue leaves every tracked account at or above its start, for any weight |
| `Router.LegsKeepReserves` | program-template/programs/titan-v3-venue-template/src/instructions/swap_route_v3.rs:207-251 | so do any legs in any order |
| `Router.FundingArrives` | program-template/programs/titan-v3-venue-template/src/instructions/swap_route_v3.rs:150-205 | a payment that arrives in full adds its amount to the first route account, wrapped or not |
| `Router.FundingLeavesStored` | program-template/programs/titan-v3-venue-template/src/instructions/swap_route_v3.rs:150-205 | paying by a stored balance leaves the user exactly that balance |
| `Router.FundingSpends` | program-template/programs/titan-v3-venue-template/src/instructions/swap_route_v3.rs:150-205 | paying a given amount takes it from the user, topped up from lamports where native input falls short |
| `Router.SettleKeepsReserves` | program-template/programs/titan-v3-venue-template/src/instructions/swap_route_v3.rs:253-288 | settlement, with the user's account created when missing, leaves exactly the reserve of the output mint and touches no other |
| `Router.SettlePaysUser` | program-template/programs/titan-v3-venue-template/src/instructions/swap_route_v3.rs:253-288 | the user receives what lies above the output reserve as far as the transfer credits it, and no other balance changes |
| `Router.CloseCreated` | program-template/programs/titan-v3-venue-template/src/instructions/swap_route_v3.rs:290-320 | exactly the created accounts left empty stop existing, and all others stay as they are |
| `Router.ClosingKeepsBalances` | program-template/programs/titan-v3-venue-template/src/instructions/swap_route_v3.rs:290-326 | closing changes no balance the final check sees |
| `Router.FinalCheck` | program-template/programs/titan-v3-venue-template/src/instructions/swap_route_v3.rs:322-332 | walking bits and balances side by side accepts if and only if every tracked account below 256 kept its start |
| `Router.TradeKeepsReserves` | program-template/programs/titan-v3-venue-template/src/instructions/swap_route_v3.rs:150-288 | funding, legs and settlement together keep every reserve with compliant venues |
| `Router.Execute` | program-template/programs/titan-v3-venue-template/src/instructions/swap_route_v3.rs:52-335 | any venues: success if and only if accounts are readable, the trade succeeds and every tracked account below 256 kept its start, with the result and each error given; compliant venues: the final check cannot fail and the output account ends at its reserve |
| `Router.RouteSpendsItsWeights` | program-template/programs/titan-v3-venue-template/src/instructions/swap_route_v3.rs:52-335 | a whole route ends the same with any venues that agree on the amounts its weights call for |
| `RouteCodec.RestoredLeg` | src/swap_route/mod.rs:146-169 | the router gives a venue its own instruction back if and only if its tag dispatches to its program and its flags are those the transaction gives its accounts, TitanPDA signing; its program is among the leg's accounts |
| `RouteCodec.LayoutRoundTrip` | program-template/programs/titan-v3-venue-template/src/instructions/swap_route_v3.rs:207-251 | slicing all legs by their counts recovers every venue's accounts and program if and only if every leg is within 255 accounts, its tag dispatches to its own program and its flags agree with the whole transaction |
| `RouteCodec.AgreesIfConsistent` | program-template/programs/titan-v3-venue-template/src/instructions/swap_route_v3.rs:230-239 | when every mention of an account carries the same flags, flags agree if and only if TitanPDA signs wherever a venue names it |
| `RouteCodec.EncodeSwapRouteV3Data` | src/swap_route/mod.rs:175-186 | the appending loop writes the encoding the following rows are about |
| `RouteCodec.LeRoundTrip` | src/swap_route/mod.rs:177-180 | little-endian bytes read back as the number they came from, modulo their width |
| `RouteCodec.LeDigit` | src/swap_route/mod.rs:175-186 | byte i of a number is its digit at place i in base 256 |
| `RouteCodec.WireLayout` | src/swap_route/mod.rs:175-186 | where discriminator, amount, mints, count and legs sit in the encoded route |
| `RouteCodec.LegLayout` | src/swap_route/mod.rs:50-79 | where tag, parameters and fields sit in an encoded leg |
| `RouteCodec.RouteRoundTrip` | src/swap_route/mod.rs:175-186 | reading the encoded route by the Borsh rules recovers amount, mints and legs, or refuses it when the leg count does not fit its length field |
| `RouteCodec.RouteUnique` | src/swap_route/mod.rs:63-78 | bytes that decode are the encoding of what they decode to |
| `Examples.KlendGrowth` | src/your_venue/klend/fraction.rs:66-94 | five of ten periods at 100% a year |
| `Examples.KlendAccrual` | src/your_venue/klend/math.rs:159-217 | a second at 100% on half the reserve, split with the protocol |
| `Examples.KlendCap` | src/your_venue/klend/withdrawal_caps.rs:32-49 | a cap within its interval and after it |
| `Examples.SaveQuotes` | src/your_venue/save/math.rs:147-276 | a deposit and a withdrawal at two atoms a share |
| `Examples.SaveAccrual` | src/your_venue/save/math.rs:17-47 | a slot at 10%, split with the protocol |
| `Examples.MarginfiAccrual` | src/your_venue/marginfi/math.rs:241-283 | both share values after a year, half lent out at 20% |
| `Examples.LuloEntry` | src/your_venue/lulo/math.rs:72-208 | a deposit at par |
| `Examples.LuloExit` | src/your_venue/lulo/math.rs:210-295 | an exit from a vault without a position |
| `Examples.KvaultPayment` | src/your_venue/kvault/math.rs:155-211 | a payment from idle tokens and a reserve |
| `Examples.RouteLeg` | program-template/programs/titan-v3-venue-template/src/instructions/swap_route_v3.rs:222-227 | half the weight of a balance above its reserve |

## Left out

- Account fetching, byte decoding, address derivation, account-meta lists and error texts.
- Release-build wrap-around of the quoter's unchecked operations: they are errors here, as said above.
- Decoding of curve bytes: curves are given as points.
- Negative marginfi values, the legacy marginfi curve, and the fee APRs it computes but does not use; the fee
  components are one rate and one fixed part.
- Exact solvency of marginfi assets against liabilities under accrual: both sides truncate.
- A Save round trip at the rate after the deposit, which the floored rate tilts slightly to the withdrawer.
- Direction detection by mint, the refusal of exact-out and Lulo requests, and the list of offered directions.
- Venues over Save, marginfi and kvault: the composed venue is the klend one; a quote's other inputs are parameters.
- Rounding of floating-point prices: prices are reals.
- The Raydium example, pool creation and token metadata.
- Token-program details of the route: decimals, rents and the bytes of the token ledger; account creation and wrapping
  are balance updates, a wrapped account's balance is taken to be in step with its lamports, and a transfer may
  credit less than it debits.
- Bits of the bitmap words are quotient parities rather than bit vectors.
- `KlendRuns.JoinKeeps`: other depositors are modelled with the quotes' own conversions, because the klend program is not part of this model.
- `MarginfiRuns.WithdrawKeeps`: a withdrawal burns the bank shares that the quote's own books burn, because the wrapper program is not part of this model; bankruptcies, which lower the asset share value, are not among the steps.
- `KlendRuns.LeaveKeeps`: the same holds for other holders leaving, who cannot take the shares the vault holds.
- `Venue.BoundsSound`: with both fees charged accepted deposits need not form a range (`KlendRuns.DepositsGaplessIff`); `Venue.DepositInside` states what then holds between the bounds.
