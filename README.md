# lazyhack market engine in Dafny

A model of the matching-and-exposure engine of `lazyhack`, a prediction
market. Players declare a belief range `(low, high)` per binary contract.
A matching session turns every range into a bid at `low` and an ask at `high`,
each sized by the player's remaining credit. It then crosses the best bid
against the best ask, contract by contract, and settles each fill with two
conditional IOUs. It repeats until no contract crosses.

The model also covers two small parsers of the same repository:

- the comma-separated argument lists;
- the command words of the command-line tool.

Modules, in dependency order:

| file | module | what it holds |
|---|---|---|
| `wrappers.dfy` | `Wrappers` | `Option` and `Result` |
| `map_folds.dfy` | `MapFolds` | sums, minima and maxima over finite maps and sets |
| `ordering.dfy` | `Ordering` | the lexicographic order of Rust's `String` |
| `entities.dfy` | `Entities` | `Contract`, `Player`, `Iou`, valid ranges |
| `exposure.dfy` | `Exposures` | the `Exposure` class, its queries as a value `ExposureState`, and the replay of an IOU history |
| `offers.dfy` | `Books` | `ContractOffers`, the `Offers` class, best bid and ask, `find_spreads` |
| `matching.dfy` | `Matching` | trade price, trade size, the IOUs of a fill, and the orders `find_trades` sorts by |
| `market.dfy` | `Lazyhack` | the `Market` and `Session` classes and the session loop |
| `arg_list.dfy` | `ArgLists` | `ArgList` parsing and printing |
| `command.dfy` | `Commands` | `parse_command` and its helpers |

A `panic!` in the source becomes a returned `Panicked` status or an error
value. The state a panicking method leaves is the state the source had built
before the panic. Two of the source's panics are instead proved unreachable:

- `trade_units = 0` in `session`;
- the crossing check of `find_spreads` after the loop.

Quirks of the source are modelled as written:

- `add_contract` and `add_player` bind the name to the new id before they
  panic on a duplicate.
- `rename_player` moves the id to the new name but leaves `Player.name`
  unchanged.
- `Session::apply_iou` applies an IOU twice to a player who is both its
  issuer and its holder.
- `check_credit_failure` replays only the committed IOUs, never those of the
  running session.
- `total_exposure_to_contract` sums every "Not" position, credits included.
  `total_exposure_to_neg` sums only the debts.

Where the design description and the code disagree, the model follows the
code:

- The code keeps no unconditional settled balance; an exposure is just the
  two maps.
- The largest alternative in `total_exposure_to_contract_neg` is taken over
  the positive "If" positions alone, not over "If" minus "Not".
- Among crossing contracts, `find_trades` sorts the candidate tuples and then
  reverses them. The first trade is the largest tuple, so contracts with equal
  spreads are taken in descending name order. The design asks for ascending
  name order.
- The code has no tie-aware widening step. The best bid and the best ask are
  always the top price levels of each side.

## Model

| member | source | states |
|---|---|---|
| Lazyhack.Market.constructor | src/bin/lazyhack.rs:59-72 | the market starts with no names, contracts, players or IOUs, and satisfies its invariant |
| Lazyhack.Market.AddContract | src/bin/lazyhack.rs:86-96 | the name is bound to the next id; a duplicate name panics with that name still rebound and no contract appended; otherwise the contract is appended and the invariant holds |
| Lazyhack.Market.AddPlayer | src/bin/lazyhack.rs:98-105 | the same for players: the next id is bound to the name, a duplicate panics after rebinding, otherwise the player is appended |
| Lazyhack.Market.RenamePlayer | src/bin/lazyhack.rs:117-126 | an unknown old name panics with nothing changed; otherwise the id moves to the new name, and the rename panics when the new name was held by another player; player records are untouched |
| Lazyhack.Rebound | src/bin/lazyhack.rs:118-122 | removing the old name and inserting the new one: the new key set, the moved id, and all other names unchanged |
| Lazyhack.RenameRoundTrip | src/bin/lazyhack.rs:117-126 | renaming to a fresh name and back restores the name map |
| Lazyhack.Market.PlayerRanges | src/bin/lazyhack.rs:128-142 | an unknown player panics; otherwise the ranges are cleared, the entries before the first bad one are applied in order, the first unknown contract or invalid range panics, and no other player or map changes |
| Lazyhack.AcceptedPrefix | src/bin/lazyhack.rs:131-138 | the number of entries applied: all of them pass both checks, and the next one (if any) fails one |
| Lazyhack.DeclaredRangesKeys | src/bin/lazyhack.rs:128-142 | after `player_ranges` the player's range map holds exactly the contracts the entries name |
| Lazyhack.DeclaredRangesStep | src/bin/lazyhack.rs:139-140 | accepting one more entry sets its contract's range on top of the ranges declared so far |
| Lazyhack.AcceptedPrefixAt | src/bin/lazyhack.rs:131-138 | a scan that accepted the first `i` entries and stopped at the end or at a rejected entry has applied exactly the accepted prefix |
| Lazyhack.DeclaredRangesLastWins | src/bin/lazyhack.rs:139-140 | a contract named more than once keeps the range of its last entry |
| Lazyhack.Market.IncrementCredit | src/bin/lazyhack.rs:144-148 | every player's credit limit grows by the amount, and nothing else changes |
| Lazyhack.Market.CalcExposure | src/bin/lazyhack.rs:226-232 | a fresh exposure of the player equal to the replay of every committed IOU in order |
| Lazyhack.Market.CheckCreditFailure | src/bin/lazyhack.rs:234-247 | no panic exactly when every contract's committed exposure is within the limit; otherwise the panic names the first exceeding contract in name order, with its exposure and the limit |
| Lazyhack.Market.CommittedExposure | src/bin/lazyhack.rs:234-238 | the exposure `check_credit_failure` compares with the limit: `total_exposure_to_contract` of the replay of the committed IOUs alone (no contract of its own; it is read by `WithinLimit` and `CreditPanic`) |
| Lazyhack.Market.PlayerMaxBuyAmount | src/bin/lazyhack.rs:249-260 | the buyer's headroom in the session: never negative, at least its limit minus its session worst case if the contract resolves false, and equal to it or 0 |
| Lazyhack.Market.PlayerMaxSellAmount | src/bin/lazyhack.rs:262-273 | the seller's headroom in the session, against its session worst case if the contract resolves true |
| Lazyhack.BuyHeadroom | src/bin/lazyhack.rs:249-260 | `player_max_buy_amount`: never negative, at least the limit minus the worst case if the contract resolves false, and equal to it or 0 |
| Lazyhack.SellHeadroom | src/bin/lazyhack.rs:262-273 | `player_max_sell_amount`: the same against the worst case if the contract resolves true |
| Lazyhack.Market.OpenSession | src/bin/lazyhack.rs:276-280 | the session holds one fresh exposure per named player, each the replay of the committed IOUs, and no session IOUs |
| Lazyhack.Market.ProposeTrade | src/bin/lazyhack.rs:283-288 | no trade exactly when no player asks at or below a price another bids; otherwise the trade is the head of `find_trades` on the book posted from the session's snapshots, between two different named players, with prices in 1..99 and at least 100 of headroom on both sides; the snapshots are unchanged |
| Lazyhack.CandidateTradable | src/bin/lazyhack.rs:287-320 | a candidate trade of a posted book always yields `trade_units > 0`, so that panic cannot happen |
| Lazyhack.Market.SessionStep | src/bin/lazyhack.rs:283-349 | one round on the snapshots of the committed and session IOUs: no trade exactly when the quotes are settled, with no IOU added; otherwise the fill is that round's fill (the best trade of the posted book, priced at `(low + high) / 2`, and as many units as both headrooms allow) and its two IOUs are appended; the round halts with the buyer's credit panic if the buyer is over its limit, else with the seller's if the seller is; otherwise both are within their limits, the buyer on the traded contract resolving false and the seller on it resolving true |
| Lazyhack.Market.TradeRound | src/bin/lazyhack.rs:283-346 | the trading half of a round: no fill exactly when the quotes are settled; otherwise the round fill, sound, its IOUs appended, with the buyer and the seller within their limits on the traded contract |
| Lazyhack.Market.CheckFillCredit | src/bin/lazyhack.rs:347-348 | no panic exactly when both players' committed credit is within limit; otherwise the buyer's panic if the buyer is over, else the seller's |
| Lazyhack.Market.FillTrade | src/bin/lazyhack.rs:289-346 | the proposed trade priced at `(low + high) / 2` and sized by both headrooms is the round fill; it is sound, its two IOUs are applied and appended, and each side stays within its limit on the traded contract |
| Lazyhack.TradeFillRound | src/bin/lazyhack.rs:283-320 | filling the head of `find_trades` at the mid price, as large as both headrooms allow, is the round fill of those snapshots |
| Lazyhack.TradeFillWithinLimits | src/bin/lazyhack.rs:289-345 | that fill is sound, and after it the buyer's worst case if the contract resolves false and the seller's if it resolves true are within their limits |
| Lazyhack.CreditBoundOnOtherContract | src/bin/lazyhack.rs:283-348 | a counterexample: with 1000 of headroom on both sides a sound 11-unit fill at 90 is the largest the round allows, yet afterwards the buyer stands to lose 1380, beyond its limit of 1000, if another contract resolves false |
| Lazyhack.SessionStates | src/bin/lazyhack.rs:276-280 | the snapshots a session holds: one per named player and no others, each the replay of the IOU log |
| Lazyhack.RoundFillsAppend | src/bin/lazyhack.rs:282-349 | a round fill of the current snapshots extends the session's record of round fills |
| Lazyhack.Session.StatesReplayed | src/bin/lazyhack.rs:369-385 | under the session invariant, the snapshots are the replays of the committed and session IOUs |
| Lazyhack.FillWithinCreditLimits | src/bin/lazyhack.rs:291-348 | a fill sized from the two headrooms keeps the buyer within its limit if the contract resolves false and the seller within its limit if it resolves true |
| Lazyhack.Market.SettledSpreads | src/bin/lazyhack.rs:356-357 | once the quotes are settled, `find_spreads` does not panic; the spreads are exactly those of the book posted from the session's snapshots, one per contract under its name, each with its bid below its ask |
| Lazyhack.Market.CloseSession | src/bin/lazyhack.rs:356-364 | after the loop, the committed IOUs become the old ones followed by the session's; the quotes of the new committed state are settled, and the spreads are those of its posted book, every one open; names, contracts and players are unchanged |
| Lazyhack.SettledBookOpen | src/bin/lazyhack.rs:356-357 | the book posted from settled quotes has every contract open, so `find_spreads` cannot panic |
| Lazyhack.SpreadsOfBook | src/bin/lazyhack.rs:526-538 | the spreads `find_spreads` reads off a posted book are the spreads of those quotes |
| Lazyhack.BookOfUnique | src/bin/lazyhack.rs:387-403 | two well-formed books posted from the same quotes are the same book, so the spreads and trades of a state are determined |
| Lazyhack.Market.RunSession | src/bin/lazyhack.rs:275-365 | the loop stops by itself before the fuel is spent, or runs out of fuel exactly when it has made `fuel` fills; every fill passed both committed credit checks, is sound and is the round fill of the snapshots the earlier fills left; a settled session appends exactly the IOUs of its fills, ends with settled quotes, and returns the spreads of the final book, all open; a credit panic reports the last round fill with the buyer's panic, else the seller's; a panic or exhausted fuel leaves the committed IOUs unchanged; names, contracts and players never change |
| Lazyhack.NoCrossingIffSettled | src/bin/lazyhack.rs:387-415 | the posted book has no crossing contract exactly when no player asks at or below a price another bids |
| Lazyhack.PostedBookGrounded | src/bin/lazyhack.rs:387-403 | the posted book names only existing contracts and players, with bids in 0..99 and asks in 1..100 |
| Lazyhack.PostedSoFarStep | src/bin/lazyhack.rs:391-400 | posting one range adds the bid at `low` and the ask at `high`, each only when its headroom is at least 100 |
| Lazyhack.Session.constructor | src/bin/lazyhack.rs:369-373 | no exposures and no IOUs |
| Lazyhack.Session.ApplyIou | src/bin/lazyhack.rs:375-385 | the issuer's and the holder's exposures take the IOU, twice on one exposure when they are the same player; the IOU is appended; other exposures are unchanged |
| Lazyhack.Session.ApplyFill | src/bin/lazyhack.rs:322-346 | the seller's "If" IOU and then the buyer's "Not" IOU are applied and appended; each exposure stays the replay of the committed and session IOUs |
| Lazyhack.Session.FindOffers | src/bin/lazyhack.rs:387-403 | the book's quotes are exactly those of the named players: the bid and ask headrooms at the ends of each declared range, each when at least 100 |
| Lazyhack.Session.FindTrades | src/bin/lazyhack.rs:405-485 | no trade exactly when no contract crosses; otherwise the head of the sorted and reversed list, the largest candidate in the tuple order |
| Lazyhack.PickBest | src/bin/lazyhack.rs:416-467 | the participant a price level yields: the largest amount, then the smallest name, then the smallest id |
| Lazyhack.BestUnique | src/bin/lazyhack.rs:439-458 | a price level has one best participant |
| Lazyhack.CandidateUnique | src/bin/lazyhack.rs:411-478 | a crossing contract contributes exactly one candidate trade |
| Lazyhack.Better | src/bin/lazyhack.rs:482-484 | the kept trade is either the previous best or the new candidate |
| Lazyhack.BestAmongTake | src/bin/lazyhack.rs:466-484 | visiting a crossing contract keeps the largest candidate so far |
| Matching.Quot | src/bin/lazyhack.rs:289 | Rust's truncating `/`: for a non-negative dividend, the quotient bounds |
| Matching.TradePrice | src/bin/lazyhack.rs:289 | `(low + high) / 2` lies between a crossing ask and bid inside 1..99 |
| Matching.TradeUnits | src/bin/lazyhack.rs:295-320 | the most units both headrooms allow: both stakes fit, one more unit would not, and the size is positive when each headroom covers one unit |
| Matching.FillIous | src/bin/lazyhack.rs:322-336 | the seller owes the buyer if true, the buyer owes the seller if false; the two amounts sum to `units * 100` and are positive |
| Matching.BuyerWorstCaseGrowth | src/bin/lazyhack.rs:322-345 | the buyer's worst case if the contract resolves false grows by at most what the buyer's IOU pays, `units * price` |
| Matching.SellerWorstCaseGrowth | src/bin/lazyhack.rs:322-345 | the seller's worst case if the contract resolves true grows by exactly the seller's IOU stake, `units * (100 - price)` |
| Matching.BuyerAfterFill | src/bin/lazyhack.rs:322-346 | the buyer's exposure after both IOUs of a fill: "If c" down by the seller's stake, "Not c" up by what it pays |
| Matching.SellerAfterFill | src/bin/lazyhack.rs:322-346 | the seller's exposure after both IOUs: "If c" up by its stake, "Not c" down by what the buyer pays |
| Matching.NotDebtGrowth | src/bin/lazyhack.rs:624-641 | a new "Not c" debt of `paid`, with any change to "If c", raises the worst case if `c` resolves false by at most `paid` |
| Matching.PositiveOthersIgnoresTarget | src/bin/lazyhack.rs:627-632 | the "If c" position does not affect the positions the filter keeps for `c` |
| Matching.DebtsGrowBy | src/bin/lazyhack.rs:639-641 | a "Not" debt of `paid` raises the sum of the debts by at most `paid` |
| Matching.StakeAndCredit | src/bin/lazyhack.rs:610-619 | a stake on "If c" with a credit on "Not c" moves the worst case if `c` resolves true by the stake alone |
| Matching.IousOfAppend | src/bin/lazyhack.rs:343-345 | each fill appends its two IOUs to the session's list |
| Matching.OutranksStrictTotal | src/bin/lazyhack.rs:439-445 | the sort order on `(amount, name, id)` puts any two different participants in exactly one order |
| Matching.OutranksTransitive | src/bin/lazyhack.rs:439-445 | that order is transitive |
| Matching.TradeLessStrictTotal | src/bin/lazyhack.rs:466-484 | the tuple order on trades puts any two different trades in exactly one order |
| Matching.TradeLessTransitive | src/bin/lazyhack.rs:466-484 | that order is transitive |
| Books.Offers.constructor | src/bin/lazyhack.rs:489-492 | an empty book |
| Books.Offers.AddBuyOffer | src/bin/lazyhack.rs:494-508 | the book gains exactly the player's bid at that price |
| Books.Offers.AddSellOffer | src/bin/lazyhack.rs:510-524 | the book gains exactly the player's ask at that price |
| Books.WithBid | src/bin/lazyhack.rs:494-508 | only the one bid changes, asks are untouched, and a well-formed book stays well-formed |
| Books.WithAsk | src/bin/lazyhack.rs:510-524 | only the one ask changes, bids are untouched, and a well-formed book stays well-formed |
| Books.WithQuote | src/bin/lazyhack.rs:501-507 | inserting into a price level: only that player's amount at that price changes |
| Books.SameQuotesSameBook | src/bin/lazyhack.rs:488-524 | two well-formed books with the same bids and asks are equal |
| Books.SameQuotesSameSide | src/bin/lazyhack.rs:494-524 | two sides of a book with the same quotes and no empty price level are equal |
| Books.QuotedContract | src/bin/lazyhack.rs:494-524 | a contract of a well-formed book has at least one quote |
| Books.BestBid | src/bin/lazyhack.rs:413 | `buy.iter().rev().next()`: the highest bid price (no contract of its own; BestQuotesExtreme states it) |
| Books.BestAsk | src/bin/lazyhack.rs:414 | `sell.iter().next()`: the lowest ask price (no contract of its own; BestQuotesExtreme states it) |
| Books.BestQuotesExtreme | src/bin/lazyhack.rs:413-414 | the best bid is missing exactly when there are no bids, else it is a bid no lower than any other; the same for the lowest ask |
| Books.Spread | src/bin/lazyhack.rs:530-531 | the pair `find_spreads` records: the best bid or 0, the best ask or 100 (no contract of its own; SettledBookHasOpenSpreads and NamedSpreadsOpen state its properties) |
| Books.Offers.FindSpreads | src/bin/lazyhack.rs:526-538 | success exactly when every contract's bid is below its ask (0 and 100 for an empty side); the map holds each contract's spread by name; a failure names the first crossing contract by id |
| Books.FirstCrossedFound | src/bin/lazyhack.rs:528-534 | visiting contracts in ascending id order, the first one whose bid is not below its ask is the lowest-numbered such contract |
| Books.NamedSpreadsStep | src/bin/lazyhack.rs:535 | inserting a spread under its contract's name keeps every visited name in the map, each entry the spread of a visited contract of that name, even when a same-named contract is overwritten |
| Books.NamedSpreadsOpen | src/bin/lazyhack.rs:526-538 | when every contract is open, so is every recorded spread |
| Books.CrossingIffQuotesCross | src/bin/lazyhack.rs:413-415 | a contract crosses exactly when some player asks at or below a price some player bids |
| Books.SettledBookHasOpenSpreads | src/bin/lazyhack.rs:526-538 | with no crossing contract and quotes in range, every spread is open |
| Entities.NewPlayer | src/bin/lazyhack.rs:555-564 | a new player has the name, no ranges and a credit limit of 1000 |
| Entities.Player.ClearRanges | src/bin/lazyhack.rs:566-568 | no ranges; name and credit limit kept |
| Entities.Player.SetRange | src/bin/lazyhack.rs:570-572 | the range of that one contract is set; the other ranges, the name and the limit are kept |
| Exposures.Exposure.constructor | src/bin/lazyhack.rs:576-584 | no positions |
| Exposures.Exposure.ApplyIou | src/bin/lazyhack.rs:586-600 | the new state is `Applied`: issued IOUs add their amount, held ones subtract it, each to the map of its condition; other IOUs change nothing |
| Exposures.AppliedPositions | src/bin/lazyhack.rs:586-600 | per contract, only the position of the IOU's contract and condition moves, by the signed amount |
| Exposures.Exposure.AddExposure | src/bin/lazyhack.rs:651-656 | the "If" map gains the amount on that contract; the "Not" map is unchanged |
| Exposures.Exposure.AddNegExposure | src/bin/lazyhack.rs:658-663 | the "Not" map gains the amount on that contract; the "If" map is unchanged |
| Exposures.AddTo | src/bin/lazyhack.rs:651-663 | the entry-or-insert update: that key gains the amount, other keys unchanged |
| Exposures.Applied | src/bin/lazyhack.rs:586-600 | `apply_iou` on a snapshot value (no contract of its own; AppliedPositions states how each position moves) |
| Exposures.Replay | src/bin/lazyhack.rs:226-232 | `calc_exposure`: the IOUs applied in order from no exposure (no contract of its own; ReplayIncremental and ReplayClosedForm state it) |
| Exposures.ExposureState.ExposureOf | src/bin/lazyhack.rs:602-604 | the net "If c" position, 0 when there is none (no contract of its own; AppliedPositions and ReplayClosedForm state how `apply_iou` and `calc_exposure` move it) |
| Exposures.ExposureState.NegExposureOf | src/bin/lazyhack.rs:606-608 | the net "Not c" position, 0 when there is none (no contract of its own; AppliedPositions and ReplayClosedForm state how `apply_iou` and `calc_exposure` move it) |
| Exposures.ExposureState.TotalNegExposure | src/bin/lazyhack.rs:610-612 | the sum of every "Not" position (no contract of its own; ExposureState.TotalExposureToNeg bounds it) |
| Exposures.ExposureState.TotalExposureToContract | src/bin/lazyhack.rs:617-619 | the worst case if `c` resolves true (no contract of its own; ContractExposureCountsOtherNots and ContractExposureNetsCredits state it) |
| Exposures.ExposureState.TotalExposureToContractNeg | src/bin/lazyhack.rs:624-635 | the worst case if `c` resolves false (no contract of its own; ContractNegWorstCase states it) |
| Exposures.ReplayIncremental | src/bin/lazyhack.rs:226-232 | a snapshot replayed from a prefix of the history, then updated IOU by IOU, equals the full replay |
| Exposures.ReplayClosedForm | src/bin/lazyhack.rs:226-232 | the replayed positions are the signed sums of the IOUs on each contract and condition |
| Exposures.ContractExposureCountsOtherNots | src/bin/lazyhack.rs:610-619 | `total_exposure_to_contract(c)` is the "If c" position plus every "Not q" position for q other than c |
| Exposures.ContractExposureNetsCredits | src/bin/lazyhack.rs:610-641 | that sum nets credits, so it never exceeds the same formula with the debts only |
| Exposures.ContractExposureNetsCreditsStrictly | src/bin/lazyhack.rs:610-641 | with one "Not" credit the two formulas differ |
| Exposures.ExposureState.TotalExposureToNeg | src/bin/lazyhack.rs:639-641 | the sum of the "Not" debts is never negative and never below the sum of all "Not" positions |
| Exposures.ContractNegWorstCase | src/bin/lazyhack.rs:624-635 | `total_exposure_to_contract_neg(c)` exceeds the "Not" debts by no less than any "If" position on another contract, and by exactly one of them unless it exceeds them by nothing |
| MapFolds.Sum | src/bin/lazyhack.rs:611 | `values().sum()` (no contract of its own; SumRemove and SumUpdate state it) |
| MapFolds.SumRemove | src/bin/lazyhack.rs:611 | any entry can be taken out of the sum first, so the fold order does not matter |
| MapFolds.SumUpdate | src/bin/lazyhack.rs:611 | changing one entry changes the sum by exactly the difference |
| MapFolds.Positive | src/bin/lazyhack.rs:640 | the `is_positive` filter keeps exactly the entries with a positive value, with their values |
| MapFolds.MaxValue | src/bin/lazyhack.rs:633-634 | `max()` over the values (no contract of its own; MaxValueIsMax states it) |
| MapFolds.MaxValueIsMax | src/bin/lazyhack.rs:633-634 | `max()` over the map's values: none exactly when the map is empty, otherwise one of its values and no smaller than any other |
| Exposures.PositiveOthers | src/bin/lazyhack.rs:627-632 | the filter: the positive "If" positions on contracts other than c |
| Exposures.ExposureState.Outcome | src/bin/lazyhack.rs:643-645 | the gain if c resolves true: the gain otherwise minus the net position on c |
| Exposures.ExposureState.OtherwiseOutcome | src/bin/lazyhack.rs:647-649 | the gain if nothing resolves true is at least minus the "Not" debts |
| ArgLists.Trim | src/market/types.rs:74-77 | `trim`: the infix left after dropping only whitespace at both ends, with no whitespace left at either end |
| ArgLists.SkipStart | src/market/types.rs:74 | the scan for the start of the trimmed text: the first position from `i` on that is not whitespace, with only whitespace skipped |
| ArgLists.SkipEnd | src/market/types.rs:74 | the scan for its end: only whitespace lies between the result and `j`, and the character before the result, unless it is `lo`, is not whitespace |
| ArgLists.TrimEmptyIffBlank | src/market/types.rs:74 | trimming gives the empty string exactly on all-whitespace input |
| ArgLists.Split | src/market/types.rs:77 | `split(',')`: at least one piece, and no piece holds a comma |
| ArgLists.SplitCount | src/market/types.rs:77 | there is one more piece than there are commas |
| ArgLists.JoinSplit | src/market/types.rs:66-69 | joining the pieces of a split with "," gives back the string |
| ArgLists.SplitJoin | src/market/types.rs:66-77 | splitting a join of comma-free pieces gives back the pieces |
| ArgLists.Join | src/market/types.rs:66-69 | `join(",")`: comma-free pieces joined give one comma fewer than there are pieces |
| ArgLists.ToStr | src/market/types.rs:66-69 | `From<&ArgList> for String`: the tokens joined with "," (no contract of its own; RoundTrip states that printing is undone by parsing) |
| ArgLists.FromStr | src/market/types.rs:72-80 | `From<&str> for ArgList`: no tokens exactly when the trimmed text is empty, and every token trimmed |
| ArgLists.FromStrEmptyIffBlank | src/market/types.rs:74-75 | the list is empty exactly when the text is blank |
| ArgLists.FromStrPieces | src/market/types.rs:76-77 | a non-blank text gives one trimmed token per piece, so the token count is the comma count plus one |
| ArgLists.FromStrPrintable | src/market/types.rs:72-80 | every parsed token is trimmed and comma-free, and a parsed list is never the single empty token |
| ArgLists.RoundTrip | src/market/types.rs:66-80 | a list of trimmed, comma-free tokens (other than the single empty token) prints and parses back to itself |
| ArgLists.ReparseStable | src/market/types.rs:66-80 | printing a parsed list and parsing it again gives the same list |
| ArgLists.TokenListEmpty | src/market/types.rs:82-87 | the unit test: "", " " and " \n\t " give no tokens |
| ArgLists.TokenListOne | src/market/types.rs:89-93 | the unit test: "x" and " x " give one token |
| ArgLists.TokenListTwo | src/market/types.rs:95-100 | the unit test: "x,y", "x," and ",y" give two tokens |
| Commands.ParseDone | src/main.rs:115-121 | succeeds with the command exactly when no words are left, otherwise reports the leftover words |
| Commands.ParseUserAddCommand | src/main.rs:106-113 | no words is a missing name; success exactly on one word, which names the new user |
| Commands.ParseUserCommand | src/main.rs:95-104 | no words is a missing subcommand; success exactly on `add NAME` |
| Commands.ParseCommand | src/main.rs:80-93 | no words asks for the usage text and nothing else does; a success is a command the parser can produce, from at most three words |
| Commands.ParseWords | src/main.rs:80-113 | the words of each command parse back to it (a server only on 127.0.0.1:8000) |
| Commands.ParsedWords | src/main.rs:80-113 | a successful parse consumed exactly the words of the command it returns |
| Commands.ParseErrors | src/main.rs:80-121 | each error and the words that cause it: unknown command, missing or unknown user subcommand, missing user name, trailing words |

## Left out

- Console output is not part of this model. This covers `dump`, `dump_aftermath`, the `println!` of the spreads in `session`, `main` and the fixture data of `setup_session1` and `setup_session2`.
- `new_contract`, `new_player` and `Contract::new` are thin wrappers and are not modelled separately.
- The database, the HTTP server, message encoding, option parsing and time parsing are not part of this model.
- The outcome-resolution step of the design is not present in the engine's code, so it is not modelled.
- Lazyhack.Market.RunSession: the loop of `session` has no evident bound, so it takes a `fuel` argument and returns `OutOfFuel`, with exactly `fuel` fills, when the fuel runs out.
- Lazyhack.Session.FindTrades: returns only the head of the sorted and reversed list, which is all `session` uses. The full sorted list is not built. The head is found by a linear scan for the maximum under the same tuple order.
- Lazyhack.PickBest: Rust's sort-and-retain is modelled as a linear scan for the same element.
- Lazyhack.Market.RunSession: once it has panicked, the state of the discarded session is not described.
- Lazyhack.Market.CheckCreditFailure: requires a valid player id. The source indexes the player vector, and every caller passes an id from the name map.
- All of `Price` is modelled as unbounded integers, so `i32` overflow is not modelled. Every arithmetic step of the source is otherwise reproduced, including truncating division.
- Lazyhack.Market.SessionStep: the credit bound after a fill is stated only on the traded contract. It covers the buyer if that contract resolves false and the seller if it resolves true, because that is all the headroom sizing the fill covers. CreditBoundOnOtherContract exhibits a sound, largest-possible fill after which the buyer stands to lose 1380 against a limit of 1000 if another contract resolves false. `check_credit_failure` measures only `total_exposure_to_contract` of the committed IOUs, so it does not report this case either.
- Whitespace follows the Unicode White_Space property used by Rust's `char::is_whitespace`. Strings are sequences of code points, not UTF-8 bytes; the order of code points matches the byte order of UTF-8.
