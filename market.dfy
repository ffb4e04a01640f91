/**
 * The market of `lazyhack`: named contracts and players, the history of
 * committed IOUs, and the matching session that trades the players' declared
 * belief ranges against each other within their credit limits.
 *
 * A `panic!` of the source is a `Panicked` status here; the state a panicking
 * method leaves behind is the state the source had built up to that point.
 */
module Lazyhack {
  import opened Wrappers
  import opened MapFolds
  import opened Ordering
  import opened Entities
  import opened Exposures
  import opened Books
  import opened Matching

  /** The panics of the market, with what each message names. */
  datatype Panic =
    | ContractExists(name: string)
    | PlayerExists(name: string)
    | NoSuchPlayer(name: string)
    | ExistingPlayer(name: string)
    | UnknownPlayer(name: string)
    | ContractDoesNotExist(name: string)
    | InvalidRange(contractName: string, low: Price, high: Price)
    | CreditExceeded(player: string, contract: string, exposed: Price, limit: Price)

  datatype Status = Completed | Panicked(panic: Panic)

  /** One `(contract_name, low, high)` entry given to `player_ranges`. */
  type RangeEntry = (string, Price, Price)

  /** Why `player_ranges` rejects an entry: an unknown contract, then a bad range. */
  function EntryError(names: map<string, ContractId>, e: RangeEntry): Option<Panic> {
    if e.0 !in names then Some(ContractDoesNotExist(e.0))
    else if !ValidRange(e.1, e.2) then Some(InvalidRange(e.0, e.1, e.2))
    else None
  }

  /** How many entries `player_ranges` applies before the first rejected one. */
  function AcceptedPrefix(names: map<string, ContractId>, entries: seq<RangeEntry>): (n: nat)
    ensures n <= |entries|
    ensures forall i :: 0 <= i < n ==> EntryError(names, entries[i]).None?
    ensures n < |entries| ==> EntryError(names, entries[n]).Some?
    decreases |entries|
  {
    if entries == [] || EntryError(names, entries[0]).Some? then 0
    else 1 + AcceptedPrefix(names, entries[1..])
  }

  /** The ranges the entries declare, applied in order. */
  function DeclaredRanges(names: map<string, ContractId>, entries: seq<RangeEntry>): map<ContractId, (Price, Price)>
    requires forall i :: 0 <= i < |entries| ==> entries[i].0 in names
    decreases |entries|
  {
    if entries == [] then map[]
    else
      var last := entries[|entries| - 1];
      DeclaredRanges(names, entries[..|entries| - 1])[names[last.0] := (last.1, last.2)]
  }

  /** The declared contracts are exactly those the entries name. */
  lemma {:induction false} DeclaredRangesKeys(names: map<string, ContractId>, entries: seq<RangeEntry>)
    requires forall i :: 0 <= i < |entries| ==> entries[i].0 in names
    ensures forall c :: c in DeclaredRanges(names, entries) <==> exists i :: 0 <= i < |entries| && names[entries[i].0] == c
    decreases |entries|
  {
    if entries != [] {
      var n := |entries| - 1;
      var init := entries[..n];
      DeclaredRangesKeys(names, init);
      forall c | c in DeclaredRanges(names, entries)
        ensures exists i :: 0 <= i < |entries| && names[entries[i].0] == c
      {
        if c != names[entries[n].0] {
          assert c in DeclaredRanges(names, init);
          var i :| 0 <= i < n && names[init[i].0] == c;
          assert names[entries[i].0] == c;
        }
      }
      forall c, i | 0 <= i < |entries| && names[entries[i].0] == c
        ensures c in DeclaredRanges(names, entries)
      {
        if i < n {
          assert names[init[i].0] == c;
        }
      }
    }
  }

  /** When a contract is named more than once, the last entry naming it wins. */
  lemma {:induction false} DeclaredRangesLastWins(names: map<string, ContractId>, entries: seq<RangeEntry>, i: nat)
    requires forall j :: 0 <= j < |entries| ==> entries[j].0 in names
    requires i < |entries|
    requires forall j :: i < j < |entries| ==> names[entries[j].0] != names[entries[i].0]
    ensures names[entries[i].0] in DeclaredRanges(names, entries)
    ensures DeclaredRanges(names, entries)[names[entries[i].0]] == (entries[i].1, entries[i].2)
    decreases |entries|
  {
    var n := |entries| - 1;
    if i < n {
      var init := entries[..n];
      assert init[i] == entries[i];
      assert forall j :: i < j < n ==> init[j] == entries[j];
      DeclaredRangesLastWins(names, init, i);
    }
  }

  /** Accepting one more entry declares its range on top of the earlier ones. */
  lemma DeclaredRangesStep(names: map<string, ContractId>, entries: seq<RangeEntry>, i: nat)
    requires i < |entries| && forall j :: 0 <= j <= i ==> entries[j].0 in names
    ensures DeclaredRanges(names, entries[..i + 1]) ==
            DeclaredRanges(names, entries[..i])[names[entries[i].0] := (entries[i].1, entries[i].2)]
  {
    assert entries[..i + 1][..i] == entries[..i];
  }

  /** A scan that accepts the first `i` entries and stops at the end or at a
    * rejected entry has found the accepted prefix. */
  lemma {:induction false} AcceptedPrefixAt(names: map<string, ContractId>, entries: seq<RangeEntry>, i: nat)
    requires i <= |entries|
    requires forall j :: 0 <= j < i ==> EntryError(names, entries[j]).None?
    requires i == |entries| || EntryError(names, entries[i]).Some?
    ensures AcceptedPrefix(names, entries) == i
    decreases i
  {
    if i > 0 {
      assert forall j :: 0 <= j < i - 1 ==> entries[1..][j] == entries[j + 1];
      AcceptedPrefixAt(names, entries[1..], i - 1);
    }
  }

  /** `old` rebound under `new`: what `rename_player` does to the name map. */
  function Rebound(names: map<string, PlayerId>, oldName: string, newName: string): (r: map<string, PlayerId>)
    requires oldName in names
    ensures r.Keys == names.Keys - {oldName} + {newName}
    ensures r[newName] == names[oldName]
    ensures forall n :: n in names && n != oldName && n != newName ==> r[n] == names[n]
  {
    (names - {oldName})[newName := names[oldName]]
  }

  /** Renaming to a fresh name and back restores the name map. */
  lemma RenameRoundTrip(names: map<string, PlayerId>, oldName: string, newName: string)
    requires oldName in names && newName !in names
    ensures Rebound(Rebound(names, oldName, newName), newName, oldName) == names
  {
    var back := Rebound(Rebound(names, oldName, newName), newName, oldName);
    assert back.Keys == names.Keys;
  }

  /** The `(amount, name, id)` tuple of player `x` at a price level. */
  function Ranked(level: Level, x: PlayerId, players: seq<Player>): Candidate
    requires x in level && x < |players|
  {
    Candidate(level[x], players[x].name, x)
  }

  /** `x` is the participant `find_trades` picks at a price level. */
  ghost predicate BestIn(level: Level, x: PlayerId, players: seq<Player>) {
    && x in level && x < |players|
    && forall y :: y in level && y != x && y < |players| ==> Outranks(Ranked(level, x, players), Ranked(level, y, players))
  }

  lemma BestUnique(level: Level, x: PlayerId, y: PlayerId, players: seq<Player>)
    requires BestIn(level, x, players) && BestIn(level, y, players)
    ensures x == y
  {
    if x != y {
      OutranksStrictTotal(Ranked(level, x, players), Ranked(level, y, players));
    }
  }

  /**
   * `t` is the trade `find_trades` collects for its contract: the contract
   * crosses, `t` pairs the best participant at the highest bid with the best
   * at the lowest ask, and its spread is bid minus ask.
   */
  ghost predicate IsCandidate(t: Trade, book: Book, contracts: seq<Contract>, players: seq<Player>) {
    var c := t.contractId;
    && c in book && c < |contracts| && Crossing(book[c])
    && t.high == BestBid(book[c]).value && t.low == BestAsk(book[c]).value
    && t.spread == t.high - t.low && t.contractName == contracts[c].name
    && BestIn(book[c].buy[t.high], t.buyerId, players)
    && BestIn(book[c].sell[t.low], t.sellerId, players)
  }

  /** `t` heads the sorted and reversed list of candidate trades. */
  ghost predicate IsBestTrade(t: Trade, book: Book, contracts: seq<Contract>, players: seq<Player>) {
    && IsCandidate(t, book, contracts, players)
    && forall u :: IsCandidate(u, book, contracts, players) && u != t ==> TradeLess(u, t)
  }

  /** A crossing contract has exactly one candidate trade. */
  lemma CandidateUnique(t: Trade, u: Trade, book: Book, contracts: seq<Contract>, players: seq<Player>)
    requires IsCandidate(t, book, contracts, players) && IsCandidate(u, book, contracts, players)
    requires t.contractId == u.contractId
    ensures t == u
  {
    var co := book[t.contractId];
    BestUnique(co.buy[t.high], t.buyerId, u.buyerId, players);
    BestUnique(co.sell[t.low], t.sellerId, u.sellerId, players);
  }

  /**
   * The participant of a price level `find_trades` picks: the largest amount,
   * then the smallest name, then the smallest id. Players are visited in
   * ascending id, as the source collects them.
   */
  method PickBest(level: Level, players: seq<Player>) returns (x: PlayerId)
    requires level != map[]
    requires forall y :: y in level ==> y < |players|
    ensures BestIn(level, x, players)
  {
    NonEmptyLevel(level);
    x := SetMin(level.Keys);
    var todo := level.Keys - {x};
    while todo != {}
      invariant todo <= level.Keys && x in level && x !in todo
      invariant forall y :: y in level && y !in todo && y != x ==> Outranks(Ranked(level, x, players), Ranked(level, y, players))
      decreases todo
    {
      var y: PlayerId := SetMin(todo);
      if Outranks(Ranked(level, y, players), Ranked(level, x, players)) {
        forall z | z in level && z !in todo - {y} && z != y
          ensures Outranks(Ranked(level, y, players), Ranked(level, z, players))
        {
          if z != x {
            OutranksTransitive(Ranked(level, y, players), Ranked(level, x, players), Ranked(level, z, players));
          }
        }
        x := y;
      } else {
        OutranksStrictTotal(Ranked(level, x, players), Ranked(level, y, players));
      }
      todo := todo - {y};
    }
  }

  /**
   * `trade` is the best trade among the crossing contracts already visited (all
   * but `todo`), or `None` when none of them crosses.
   */
  ghost predicate BestAmong(trade: Option<Trade>, book: Book, contracts: seq<Contract>, players: seq<Player>, todo: set<ContractId>) {
    && (trade.None? <==> forall c :: c in book && c !in todo ==> !Crossing(book[c]))
    && (trade.None? ==> forall u :: IsCandidate(u, book, contracts, players) ==> u.contractId in todo)
    && (trade.Some? ==>
          && IsCandidate(trade.value, book, contracts, players) && trade.value.contractId !in todo
          && forall u :: IsCandidate(u, book, contracts, players) && u.contractId !in todo && u != trade.value ==>
               TradeLess(u, trade.value))
  }

  /** The larger of the best trade so far and a new candidate. */
  function Better(trade: Option<Trade>, t: Trade): (r: Option<Trade>)
    ensures r == Some(t) || r == trade
  {
    if trade.None? || TradeLess(trade.value, t) then Some(t) else trade
  }

  /** Visiting a contract that does not cross keeps the best trade. */
  lemma BestAmongSkip(trade: Option<Trade>, book: Book, contracts: seq<Contract>, players: seq<Player>, todo: set<ContractId>, c: ContractId)
    requires BestAmong(trade, book, contracts, players, todo)
    requires c in todo && c in book && !Crossing(book[c])
    ensures BestAmong(trade, book, contracts, players, todo - {c})
  {
  }

  /** Visiting a crossing contract keeps the larger of the two trades. */
  lemma BestAmongTake(trade: Option<Trade>, t: Trade, book: Book, contracts: seq<Contract>, players: seq<Player>, todo: set<ContractId>)
    requires BestAmong(trade, book, contracts, players, todo)
    requires IsCandidate(t, book, contracts, players) && t.contractId in todo
    ensures BestAmong(Better(trade, t), book, contracts, players, todo - {t.contractId})
  {
    var c := t.contractId;
    forall u | IsCandidate(u, book, contracts, players) && u.contractId == c ensures u == t {
      CandidateUnique(u, t, book, contracts, players);
    }
    if trade.Some? {
      if TradeLess(trade.value, t) {
        forall u | IsCandidate(u, book, contracts, players) && u.contractId !in todo && u != trade.value
          ensures TradeLess(u, t)
        {
          TradeLessTransitive(u, trade.value, t);
        }
      } else {
        TradeLessStrictTotal(trade.value, t);
      }
    }
  }

  /**
   * `player_max_buy_amount` on values: the credit limit minus the worst case
   * if `c` resolves false, never below zero.
   */
  function BuyHeadroom(limit: Price, s: ExposureState, c: ContractId): (r: Price)
    ensures 0 <= r && limit - s.TotalExposureToContractNeg(c) <= r
    ensures r == 0 || r == limit - s.TotalExposureToContractNeg(c)
  {
    var exposed := s.TotalExposureToContractNeg(c);
    if limit - exposed > 0 then limit - exposed else 0
  }

  /**
   * `player_max_sell_amount` on values: the credit limit minus the worst
   * case if `c` resolves true, never below zero.
   */
  function SellHeadroom(limit: Price, s: ExposureState, c: ContractId): (r: Price)
    ensures 0 <= r && limit - s.TotalExposureToContract(c) <= r
    ensures r == 0 || r == limit - s.TotalExposureToContract(c)
  {
    var exposed := s.TotalExposureToContract(c);
    if limit - exposed > 0 then limit - exposed else 0
  }

  /** Every declared range of every player is valid and names an existing contract. */
  predicate PlayersValid(players: seq<Player>, contractCount: nat) {
    forall p :: 0 <= p < |players| ==> RangesValid(players[p].ranges, contractCount)
  }

  /** Replacing one player by one with valid ranges keeps every player valid. */
  lemma PlayersValidUpdate(players: seq<Player>, contractCount: nat, p: nat, player: Player)
    requires PlayersValid(players, contractCount) && p < |players|
    requires RangesValid(player.ranges, contractCount)
    ensures PlayersValid(players[p := player], contractCount)
  {
  }

  /** Declaring a valid range on an existing contract keeps a player's ranges valid. */
  lemma RangesValidSet(ranges: map<ContractId, (Price, Price)>, contractCount: nat, c: ContractId, low: Price, high: Price)
    requires RangesValid(ranges, contractCount) && c < contractCount && ValidRange(low, high)
    ensures RangesValid(ranges[c := (low, high)], contractCount)
  {
  }

  /**
   * The bid `find_offers` posts for player `p` on contract `c` at `price`,
   * given the named players and the exposure snapshots: the whole buy
   * headroom at the low end of the player's range, when it is at least 100.
   */
  function BidQuote(named: set<PlayerId>, players: seq<Player>, states: map<PlayerId, ExposureState>,
                    c: ContractId, price: Price, p: PlayerId): Option<Price>
  {
    if p in named && p < |players| && p in states && c in players[p].ranges && players[p].ranges[c].0 == price then
      var amount := BuyHeadroom(players[p].creditLimit, states[p], c);
      if amount >= 100 then Some(amount) else None
    else None
  }

  /** The ask `find_offers` posts: the sell headroom at the high end of the range. */
  function AskQuote(named: set<PlayerId>, players: seq<Player>, states: map<PlayerId, ExposureState>,
                    c: ContractId, price: Price, p: PlayerId): Option<Price>
  {
    if p in named && p < |players| && p in states && c in players[p].ranges && players[p].ranges[c].1 == price then
      var amount := SellHeadroom(players[p].creditLimit, states[p], c);
      if amount >= 100 then Some(amount) else None
    else None
  }

  /** The quotes of `book` are exactly those the players post. */
  ghost predicate BookOf(book: Book, named: set<PlayerId>, players: seq<Player>, states: map<PlayerId, ExposureState>) {
    && (forall c, q, x :: BidAt(book, c, q, x) == BidQuote(named, players, states, c, q, x))
    && (forall c, q, x :: AskAt(book, c, q, x) == AskQuote(named, players, states, c, q, x))
  }

  /**
   * While `find_offers` runs: the players of `done`, and player `pid` on the
   * contracts not in `left`, have posted their quotes, and nobody else has.
   */
  ghost predicate PostedSoFar(book: Book, named: set<PlayerId>, players: seq<Player>, states: map<PlayerId, ExposureState>,
                              done: set<PlayerId>, pid: PlayerId, left: set<ContractId>) {
    && (forall c, q, x :: BidAt(book, c, q, x)
          == if x in done || (x == pid && c !in left) then BidQuote(named, players, states, c, q, x) else None)
    && (forall c, q, x :: AskAt(book, c, q, x)
          == if x in done || (x == pid && c !in left) then AskQuote(named, players, states, c, q, x) else None)
  }

  /** Between two players of `find_offers`: exactly the players of `done` have posted. */
  ghost predicate PostedBy(book: Book, named: set<PlayerId>, players: seq<Player>, states: map<PlayerId, ExposureState>,
                           done: set<PlayerId>) {
    && (forall c, q, x :: BidAt(book, c, q, x) == if x in done then BidQuote(named, players, states, c, q, x) else None)
    && (forall c, q, x :: AskAt(book, c, q, x) == if x in done then AskQuote(named, players, states, c, q, x) else None)
  }

  /** Starting on player `pid`: none of its contracts is posted yet. */
  lemma PostedSoFarStart(book: Book, named: set<PlayerId>, players: seq<Player>, states: map<PlayerId, ExposureState>,
                         done: set<PlayerId>, pid: PlayerId)
    requires PostedBy(book, named, players, states, done) && pid < |players|
    ensures PostedSoFar(book, named, players, states, done, pid, players[pid].ranges.Keys)
  {
  }

  /** Finishing player `pid`: it joins `done`. */
  lemma PostedSoFarFinish(book: Book, named: set<PlayerId>, players: seq<Player>, states: map<PlayerId, ExposureState>,
                          done: set<PlayerId>, pid: PlayerId)
    requires PostedSoFar(book, named, players, states, done, pid, {})
    ensures PostedBy(book, named, players, states, done + {pid})
  {
  }

  /** Posting player `pid`'s quotes for contract `c`. */
  lemma PostedSoFarStep(book: Book, named: set<PlayerId>, players: seq<Player>, states: map<PlayerId, ExposureState>,
                        done: set<PlayerId>, pid: PlayerId, left: set<ContractId>, c: ContractId)
    requires PostedSoFar(book, named, players, states, done, pid, left)
    requires c in left && pid in named && pid < |players| && pid in states && c in players[pid].ranges
    ensures var (low, high) := players[pid].ranges[c];
            var buy := BuyHeadroom(players[pid].creditLimit, states[pid], c);
            var sell := SellHeadroom(players[pid].creditLimit, states[pid], c);
            var withBid := if buy >= 100 then WithBid(book, c, pid, low, buy) else book;
            var withAsk := if sell >= 100 then WithAsk(withBid, c, pid, high, sell) else withBid;
            PostedSoFar(withAsk, named, players, states, done, pid, left - {c})
  {
  }

  /**
   * No player asks at or below a price any player, itself included, bids for
   * the same contract. A player's own quotes never cross, since its bid is at
   * `low` and its ask at `high` with `low < high`.
   */
  ghost predicate QuotesSettled(named: set<PlayerId>, players: seq<Player>, states: map<PlayerId, ExposureState>) {
    forall c, bid, x, ask, y ::
      BidQuote(named, players, states, c, bid, x).Some? && AskQuote(named, players, states, c, ask, y).Some? ==> bid < ask
  }

  /** The book posted from settled quotes has every spread open. */
  lemma SettledBookOpen(book: Book, named: set<PlayerId>, players: seq<Player>,
                        states: map<PlayerId, ExposureState>, contractCount: nat)
    requires WellFormed(book) && BookOf(book, named, players, states)
    requires Grounded(book, contractCount, |players|)
    requires QuotesSettled(named, players, states)
    ensures forall c :: c in book ==> Open(book[c])
  {
    NoCrossingIffSettled(book, named, players, states);
    SettledBookHasOpenSpreads(book);
  }

  /** Two well-formed books posted from the same quotes are the same book. */
  lemma BookOfUnique(a: Book, b: Book, named: set<PlayerId>, players: seq<Player>, states: map<PlayerId, ExposureState>)
    requires WellFormed(a) && BookOf(a, named, players, states)
    requires WellFormed(b) && BookOf(b, named, players, states)
    ensures a == b
  {
    SameQuotesSameBook(a, b);
  }

  /** `t` heads `find_trades` of the book posted from these quotes. */
  ghost predicate BestTradeOf(t: Trade, named: set<PlayerId>, players: seq<Player>, states: map<PlayerId, ExposureState>,
                              contracts: seq<Contract>) {
    exists book :: WellFormed(book) && BookOf(book, named, players, states) && IsBestTrade(t, book, contracts, players)
  }

  /**
   * `f` is the fill a round of `Market::session` makes from these snapshots:
   * the best trade of the posted book, at the truncated mid price, of as
   * many units as both headrooms allow.
   */
  ghost predicate RoundFill(f: Fill, named: set<PlayerId>, players: seq<Player>, states: map<PlayerId, ExposureState>,
                            contracts: seq<Contract>) {
    && f.contractId < |contracts|
    && BestTradeOf(Trade(f.high - f.low, contracts[f.contractId].name, f.contractId, f.buyerId, f.high, f.sellerId, f.low),
                   named, players, states, contracts)
    && f.price == TradePrice(f.low, f.high) && 0 < f.price < 100
    && f.buyerId < |players| && f.buyerId in states && f.sellerId < |players| && f.sellerId in states
    && f.units == TradeUnits(BuyHeadroom(players[f.buyerId].creditLimit, states[f.buyerId], f.contractId),
                             SellHeadroom(players[f.sellerId].creditLimit, states[f.sellerId], f.contractId), f.price)
  }

  /** The fill of trade `t` given the two headrooms: the truncated mid price and as many units as both allow. */
  function TradeFill(t: Trade, buyMax: Price, sellMax: Price): Fill
    requires 1 <= t.low <= t.high <= 99
  {
    var price := TradePrice(t.low, t.high);
    Fill(t.contractId, t.buyerId, t.high, t.sellerId, t.low, price, TradeUnits(buyMax, sellMax, price))
  }

  /**
   * The fill of a trade between two players is sound, and it keeps the buyer
   * within its limit if the contract resolves false and the seller within
   * its limit if it resolves true.
   */
  lemma TradeFillWithinLimits(t: Trade, buyLimit: Price, buyer: ExposureState, sellLimit: Price, seller: ExposureState)
    requires t.buyerId != t.sellerId && 1 <= t.low <= t.high <= 99
    requires 100 <= BuyHeadroom(buyLimit, buyer, t.contractId) && 100 <= SellHeadroom(sellLimit, seller, t.contractId)
    ensures var f := TradeFill(t, BuyHeadroom(buyLimit, buyer, t.contractId), SellHeadroom(sellLimit, seller, t.contractId));
            var ious := FillIous(f);
            && FillSound(f)
            && Applied(f.buyerId, Applied(f.buyerId, buyer, ious[0]), ious[1]).TotalExposureToContractNeg(f.contractId) <= buyLimit
            && Applied(f.sellerId, Applied(f.sellerId, seller, ious[0]), ious[1]).TotalExposureToContract(f.contractId) <= sellLimit
  {
    var f := TradeFill(t, BuyHeadroom(buyLimit, buyer, t.contractId), SellHeadroom(sellLimit, seller, t.contractId));
    assert FillSound(f);
    FillWithinCreditLimits(buyer, buyLimit, seller, sellLimit, f);
  }

  /** Filling the best trade of the posted book, as large as both headrooms allow, is the round fill. */
  lemma TradeFillRound(t: Trade, named: set<PlayerId>, players: seq<Player>, states: map<PlayerId, ExposureState>,
                       contracts: seq<Contract>)
    requires BestTradeOf(t, named, players, states, contracts)
    requires t.contractId < |contracts| && t.contractName == contracts[t.contractId].name && t.spread == t.high - t.low
    requires t.buyerId < |players| && t.buyerId in states && t.sellerId < |players| && t.sellerId in states
    requires 1 <= t.low <= t.high <= 99
    ensures RoundFill(TradeFill(t, BuyHeadroom(players[t.buyerId].creditLimit, states[t.buyerId], t.contractId),
                                   SellHeadroom(players[t.sellerId].creditLimit, states[t.sellerId], t.contractId)),
                      named, players, states, contracts)
  {
    TradeOfTradeFill(t, BuyHeadroom(players[t.buyerId].creditLimit, states[t.buyerId], t.contractId),
                     SellHeadroom(players[t.sellerId].creditLimit, states[t.sellerId], t.contractId), contracts);
    var f := TradeFill(t, BuyHeadroom(players[t.buyerId].creditLimit, states[t.buyerId], t.contractId),
                          SellHeadroom(players[t.sellerId].creditLimit, states[t.sellerId], t.contractId));
    TradeFillSized(t, players, states);
    RoundFillOfBestTrade(f, t, named, players, states, contracts);
  }

  /** A fill that reads back as the best trade, priced and sized as a round prices and sizes it, is the round fill. */
  lemma RoundFillOfBestTrade(f: Fill, t: Trade, named: set<PlayerId>, players: seq<Player>, states: map<PlayerId, ExposureState>,
                             contracts: seq<Contract>)
    requires BestTradeOf(t, named, players, states, contracts)
    requires f.contractId < |contracts|
    requires Trade(f.high - f.low, contracts[f.contractId].name, f.contractId, f.buyerId, f.high, f.sellerId, f.low) == t
    requires f.price == TradePrice(f.low, f.high) && 0 < f.price < 100
    requires f.buyerId < |players| && f.buyerId in states && f.sellerId < |players| && f.sellerId in states
    requires f.units == TradeUnits(BuyHeadroom(players[f.buyerId].creditLimit, states[f.buyerId], f.contractId),
                                   SellHeadroom(players[f.sellerId].creditLimit, states[f.sellerId], f.contractId), f.price)
    ensures RoundFill(f, named, players, states, contracts)
  {
    BestTradeOfSame(t, Trade(f.high - f.low, contracts[f.contractId].name, f.contractId, f.buyerId, f.high, f.sellerId, f.low),
                    named, players, states, contracts);
  }

  /** The fill of a trade is priced at the truncated mid price and sized by the two players' headrooms. */
  lemma TradeFillSized(t: Trade, players: seq<Player>, states: map<PlayerId, ExposureState>)
    requires t.buyerId < |players| && t.buyerId in states && t.sellerId < |players| && t.sellerId in states
    requires 1 <= t.low <= t.high <= 99
    ensures var f := TradeFill(t, BuyHeadroom(players[t.buyerId].creditLimit, states[t.buyerId], t.contractId),
                                  SellHeadroom(players[t.sellerId].creditLimit, states[t.sellerId], t.contractId));
            && f.price == TradePrice(f.low, f.high) && 0 < f.price < 100
            && f.buyerId < |players| && f.buyerId in states && f.sellerId < |players| && f.sellerId in states
            && f.units == TradeUnits(BuyHeadroom(players[f.buyerId].creditLimit, states[f.buyerId], f.contractId),
                                     SellHeadroom(players[f.sellerId].creditLimit, states[f.sellerId], f.contractId), f.price)
  {
  }

  /** Being the best trade is a property of the trade's value: an equal trade is the best trade too. */
  lemma BestTradeOfSame(t: Trade, u: Trade, named: set<PlayerId>, players: seq<Player>, states: map<PlayerId, ExposureState>,
                        contracts: seq<Contract>)
    requires BestTradeOf(t, named, players, states, contracts) && u == t
    ensures BestTradeOf(u, named, players, states, contracts)
  {
  }

  /** The fill of a trade names the trade's contract, players and quotes: the trade can be read back from it. */
  lemma TradeOfTradeFill(t: Trade, buyMax: Price, sellMax: Price, contracts: seq<Contract>)
    requires t.contractId < |contracts| && t.contractName == contracts[t.contractId].name && t.spread == t.high - t.low
    requires 1 <= t.low <= t.high <= 99
    ensures var f := TradeFill(t, buyMax, sellMax);
            && f.contractId < |contracts|
            && Trade(f.high - f.low, contracts[f.contractId].name, f.contractId, f.buyerId, f.high, f.sellerId, f.low) == t
  {
  }

  /** The snapshots of the named players after replaying `log`. */
  function SessionStates(named: set<PlayerId>, log: seq<Iou>): (r: map<PlayerId, ExposureState>)
    ensures r.Keys == named
  {
    map p | p in named :: Replay(p, log)
  }

  /** Each fill of a session is the round fill of the snapshots the earlier fills left. */
  ghost predicate RoundFills(fills: seq<Fill>, named: set<PlayerId>, players: seq<Player>, contracts: seq<Contract>,
                             committed: seq<Iou>)
    decreases |fills|
  {
    fills != [] ==>
      var earlier := fills[..|fills| - 1];
      && RoundFills(earlier, named, players, contracts, committed)
      && RoundFill(fills[|fills| - 1], named, players, SessionStates(named, committed + IousOf(earlier)), contracts)
  }

  /** A round fill of the current snapshots extends the session's fills. */
  lemma RoundFillsAppend(fills: seq<Fill>, f: Fill, named: set<PlayerId>, players: seq<Player>, contracts: seq<Contract>,
                         committed: seq<Iou>)
    requires RoundFills(fills, named, players, contracts, committed)
    requires RoundFill(f, named, players, SessionStates(named, committed + IousOf(fills)), contracts)
    ensures RoundFills(fills + [f], named, players, contracts, committed)
  {
    assert (fills + [f])[..|fills|] == fills;
  }

  /**
   * `spreads` is what `find_spreads` returns for the book posted from these
   * quotes: one entry per contract of the book, its spread under its name.
   */
  ghost predicate SpreadsOf(spreads: map<string, (Price, Price)>, named: set<PlayerId>, players: seq<Player>,
                            states: map<PlayerId, ExposureState>, contracts: seq<Contract>) {
    exists book ::
      && WellFormed(book) && BookOf(book, named, players, states)
      && (forall c :: c in book ==> c < |contracts|)
      && NamedSpreads(book, contracts, book.Keys, spreads)
  }

  /** The spreads `find_spreads` reads off a posted book are the spreads of those quotes. */
  lemma SpreadsOfBook(book: Book, spreads: map<string, (Price, Price)>, named: set<PlayerId>, players: seq<Player>,
                      states: map<PlayerId, ExposureState>, contracts: seq<Contract>)
    requires WellFormed(book) && BookOf(book, named, players, states)
    requires forall c :: c in book ==> c < |contracts|
    requires NamedSpreads(book, contracts, book.Keys, spreads)
    ensures SpreadsOf(spreads, named, players, states, contracts)
  {
  }

  /** The posted book has no crossing contract exactly when the quotes are settled. */
  lemma NoCrossingIffSettled(book: Book, named: set<PlayerId>, players: seq<Player>, states: map<PlayerId, ExposureState>)
    requires WellFormed(book) && BookOf(book, named, players, states)
    ensures (forall c :: c in book ==> !Crossing(book[c])) <==> QuotesSettled(named, players, states)
  {
    if forall c :: c in book ==> !Crossing(book[c]) {
      forall c, bid, x, ask, y |
        BidQuote(named, players, states, c, bid, x).Some? && AskQuote(named, players, states, c, ask, y).Some?
        ensures bid < ask
      {
        assert BidAt(book, c, bid, x).Some? && AskAt(book, c, ask, y).Some?;
        CrossingIffQuotesCross(book, c);
      }
    }
    if QuotesSettled(named, players, states) {
      forall c | c in book ensures !Crossing(book[c]) {
        forall bid, x, ask, y | BidAt(book, c, bid, x).Some? && AskAt(book, c, ask, y).Some?
          ensures bid < ask
        {
          assert BidQuote(named, players, states, c, bid, x).Some? && AskQuote(named, players, states, c, ask, y).Some?;
        }
        CrossingIffQuotesCross(book, c);
      }
    }
  }

  /** A posted book names only existing contracts and players, at prices valid ranges produce. */
  lemma PostedBookGrounded(book: Book, named: set<PlayerId>, players: seq<Player>, states: map<PlayerId, ExposureState>, contractCount: nat)
    requires PlayersValid(players, contractCount)
    requires WellFormed(book) && BookOf(book, named, players, states)
    ensures Grounded(book, contractCount, |players|)
  {
    forall c: ContractId, q: Price, x: PlayerId | BidAt(book, c, q, x).Some?
      ensures c < contractCount && x < |players| && 0 <= q <= 99
    {
      assert BidQuote(named, players, states, c, q, x).Some?;
    }
    forall c: ContractId, q: Price, x: PlayerId | AskAt(book, c, q, x).Some?
      ensures c < contractCount && x < |players| && 1 <= q <= 100
    {
      assert AskQuote(named, players, states, c, q, x).Some?;
    }
    GroundedByQuotes(book, contractCount, |players|);
  }

  /**
   * The trade a posted book proposes can be filled: buyer and seller are two
   * different named players, the ask and bid lie in 1..99, and both have at
   * least 100 of headroom. Hence the `trade_units > 0` panic cannot happen.
   */
  lemma CandidateTradable(t: Trade, book: Book, contracts: seq<Contract>, players: seq<Player>,
                          named: set<PlayerId>, states: map<PlayerId, ExposureState>)
    requires PlayersValid(players, |contracts|)
    requires WellFormed(book) && BookOf(book, named, players, states)
    requires IsCandidate(t, book, contracts, players)
    ensures t.buyerId in named && t.buyerId in states && t.buyerId < |players|
    ensures t.sellerId in named && t.sellerId in states && t.sellerId < |players|
    ensures t.buyerId != t.sellerId
    ensures 1 <= t.low <= t.high <= 99
    ensures 100 <= BuyHeadroom(players[t.buyerId].creditLimit, states[t.buyerId], t.contractId)
    ensures 100 <= SellHeadroom(players[t.sellerId].creditLimit, states[t.sellerId], t.contractId)
  {
    var c := t.contractId;
    assert t.buyerId in book[c].buy[t.high] && t.sellerId in book[c].sell[t.low];
    assert BidAt(book, c, t.high, t.buyerId).Some? && AskAt(book, c, t.low, t.sellerId).Some?;
    assert BidQuote(named, players, states, c, t.high, t.buyerId).Some?;
    assert AskQuote(named, players, states, c, t.low, t.sellerId).Some?;
  }

  /**
   * A fill sized by `TradeUnits` from the two headrooms keeps both players
   * within their credit limits, each on the worst case that sized its side:
   * the buyer if the contract resolves false, the seller if it resolves true.
   */
  lemma FillWithinCreditLimits(buyer: ExposureState, buyLimit: Price, seller: ExposureState, sellLimit: Price, f: Fill)
    requires FillSound(f)
    requires 100 <= BuyHeadroom(buyLimit, buyer, f.contractId) && 100 <= SellHeadroom(sellLimit, seller, f.contractId)
    requires f.units == TradeUnits(BuyHeadroom(buyLimit, buyer, f.contractId), SellHeadroom(sellLimit, seller, f.contractId), f.price)
    ensures var ious := FillIous(f);
            Applied(f.buyerId, Applied(f.buyerId, buyer, ious[0]), ious[1]).TotalExposureToContractNeg(f.contractId) <= buyLimit
    ensures var ious := FillIous(f);
            Applied(f.sellerId, Applied(f.sellerId, seller, ious[0]), ious[1]).TotalExposureToContract(f.contractId) <= sellLimit
  {
    BuyerWorstCaseGrowth(buyer, f);
    SellerWorstCaseGrowth(seller, f);
  }

  /**
   * Sizing a fill bounds the worst case only on the traded contract. A buyer
   * already owing 500 if contract 0 resolves true, with a limit of 1000, buys
   * the largest fill at 90 on contract 0 from a seller with nothing at
   * stake: 11 units, a sound fill. Afterwards the buyer owes 990 if contract
   * 0 resolves false, and 390 if it resolves true, so if contract 1 resolves
   * false it stands to lose 1380, beyond its limit.
   */
  lemma CreditBoundOnOtherContract(buyer: ExposureState, f: Fill)
    requires buyer.exposure.Keys == {0} && buyer.exposure[0] == 500 && buyer.negExposure.Keys == {}
    requires f == Fill(0, 0, 90, 1, 90, 90, 11)
    ensures BuyHeadroom(1000, buyer, 0) == 1000 && SellHeadroom(1000, NoExposure, 0) == 1000
    ensures f.units == TradeUnits(1000, 1000, 90)
    ensures Applied(0, Applied(0, buyer, FillIous(f)[0]), FillIous(f)[1]).TotalExposureToContractNeg(1) == 1380
    ensures FillSound(f)
  {
    assert FillSound(f) by { assert TradePrice(90, 90) == 90; }
    HeadroomsBeforeFill(buyer);
    UnitsAtNinety();
    BuyerOverexposedAfterFill(buyer, f);
  }

  /** The buyer of the fill above pays 110 on "If 0" and is owed 990 on "Not 0", leaving 1380 at stake on contract 1. */
  lemma BuyerOverexposedAfterFill(buyer: ExposureState, f: Fill)
    requires buyer.exposure.Keys == {0} && buyer.exposure[0] == 500 && buyer.negExposure.Keys == {}
    requires f == Fill(0, 0, 90, 1, 90, 90, 11)
    ensures Applied(0, Applied(0, buyer, FillIous(f)[0]), FillIous(f)[1]).TotalExposureToContractNeg(1) == 1380
  {
    var ious := FillIous(f);
    assert ious[0] == Iou(1, 0, 0, true, 110) && ious[1] == Iou(0, 1, 0, false, 990);
    var held := Applied(0, buyer, ious[0]);
    assert held.exposure.Keys == {0} && held.exposure[0] == 390 && held.negExposure.Keys == {};
    var after := Applied(0, held, ious[1]);
    assert after.exposure == held.exposure;
    assert after.negExposure.Keys == {0} && after.negExposure[0] == 990;
    WorstCaseAfterFill(after);
  }

  /** The two players of the fill above start with the whole limit of 1000 as headroom on contract 0. */
  lemma HeadroomsBeforeFill(buyer: ExposureState)
    requires buyer.exposure.Keys == {0} && buyer.exposure[0] == 500 && buyer.negExposure.Keys == {}
    ensures BuyHeadroom(1000, buyer, 0) == 1000 && SellHeadroom(1000, NoExposure, 0) == 1000
  {
    var others := PositiveOthers(buyer.exposure, 0);
    assert others.Keys == {};
    assert others == map[];
    assert MaxValue(others) == None;
    assert buyer.negExposure == map[];
    assert Positive(map[]) == map[];
    assert buyer.TotalExposureToNeg() == 0;
    assert buyer.TotalExposureToContractNeg(0) == 0;
    assert NoExposure.TotalExposureToContract(0) == 0;
  }

  /** With 1000 of headroom on each side a fill at 90 is 11 units: the buyer's 1000 buys no more. */
  lemma UnitsAtNinety()
    ensures TradeUnits(1000, 1000, 90) == 11
  {
    assert Quot(1000, 90) == 11;
    assert Quot(1000, 10) == 100;
  }

  /** The buyer of the fill above: 390 on "If 0" and 990 on "Not 0" is 1380 at stake if contract 1 resolves false. */
  lemma WorstCaseAfterFill(s: ExposureState)
    requires s.exposure.Keys == {0} && s.exposure[0] == 390
    requires s.negExposure.Keys == {0} && s.negExposure[0] == 990
    ensures s.TotalExposureToContractNeg(1) == 1380
  {
    var debts := Positive(s.negExposure);
    SumRemove(debts, 0);
    assert (debts - {0}).Keys == {};
    var others := PositiveOthers(s.exposure, 1);
    assert others.Keys == {0};
    MaxValueIsMax(others);
  }

  /**
   * How `Market::session` ends, with the fills it made: settled with the
   * spreads, halted by a credit panic after the fill `last`, or out of rounds.
   */
  datatype SessionOutcome =
    | Settled(fills: seq<Fill>, spreads: map<string, (Price, Price)>)
    | CreditFailure(fills: seq<Fill>, last: Fill, panic: Panic)
    | OutOfFuel(fills: seq<Fill>)

  /** One round of the loop of `Market::session`; a credit panic comes after the fill is applied. */
  datatype Step = NoTrade | Traded(fill: Fill) | Halted(fill: Fill, panic: Panic)

  /** `Market`: the name maps, the contracts and players, and the committed IOUs. */
  class Market {
    var contractNames: map<string, ContractId>
    var playerNames: map<string, PlayerId>
    var contracts: seq<Contract>
    var players: seq<Player>
    var ious: seq<Iou>

    /**
     * Names point at existing records, a contract's name maps back to it,
     * and every declared range is valid and names an existing contract.
     */
    ghost predicate Valid()
      reads this
    {
      && (forall n :: n in contractNames ==> contractNames[n] < |contracts| && contracts[contractNames[n]].name == n)
      && (forall n :: n in playerNames ==> playerNames[n] < |players|)
      && PlayersValid(players, |contracts|)
    }

    /** `Market::new` */
    constructor ()
      ensures Valid()
      ensures contractNames == map[] && playerNames == map[] && contracts == [] && players == [] && ious == []
    {
      contractNames := map[];
      playerNames := map[];
      contracts := [];
      players := [];
      ious := [];
    }

    /**
     * `Market::add_contract`: the contract gets the next id. The name is bound
     * before the duplicate check, so a duplicate rebinds it and then panics.
     */
    method AddContract(contract: Contract) returns (status: Status)
      requires Valid()
      modifies this
      ensures contractNames == old(contractNames)[contract.name := |old(contracts)|]
      ensures status == if contract.name in old(contractNames) then Panicked(ContractExists(contract.name)) else Completed
      ensures contracts == if status.Completed? then old(contracts) + [contract] else old(contracts)
      ensures playerNames == old(playerNames) && players == old(players) && ious == old(ious)
      ensures status.Completed? ==> Valid()
    {
      var id := |contracts|;
      var existed := contract.name in contractNames;
      contractNames := contractNames[contract.name := id];
      if existed {
        return Panicked(ContractExists(contract.name));
      }
      contracts := contracts + [contract];
      status := Completed;
    }

    /**
     * `Market::add_player`: the player gets the next id, with the same
     * rebinding before the duplicate check as `add_contract`.
     */
    method AddPlayer(player: Player) returns (status: Status)
      requires Valid()
      modifies this
      ensures playerNames == old(playerNames)[player.name := |old(players)|]
      ensures status == if player.name in old(playerNames) then Panicked(PlayerExists(player.name)) else Completed
      ensures players == if status.Completed? then old(players) + [player] else old(players)
      ensures contractNames == old(contractNames) && contracts == old(contracts) && ious == old(ious)
      ensures status.Completed? && RangesValid(player.ranges, |contracts|) ==> Valid()
    {
      var id := |players|;
      var existed := player.name in playerNames;
      playerNames := playerNames[player.name := id];
      if existed {
        return Panicked(PlayerExists(player.name));
      }
      players := players + [player];
      status := Completed;
    }

    /**
     * `Market::rename_player`: the id moves from the old name to the new one.
     * The player record, and the name stored in it, stay as they were.
     */
    method RenamePlayer(oldName: string, newName: string) returns (status: Status)
      requires Valid()
      modifies this
      ensures oldName !in old(playerNames) ==> status == Panicked(NoSuchPlayer(oldName)) && playerNames == old(playerNames)
      ensures oldName in old(playerNames) ==>
                && playerNames == Rebound(old(playerNames), oldName, newName)
                && status == if newName in old(playerNames) - {oldName} then Panicked(ExistingPlayer(newName)) else Completed
      ensures contractNames == old(contractNames) && contracts == old(contracts) && players == old(players) && ious == old(ious)
      ensures Valid()
    {
      if oldName !in playerNames {
        return Panicked(NoSuchPlayer(oldName));
      }
      var id := playerNames[oldName];
      playerNames := playerNames - {oldName};
      var existed := newName in playerNames;
      playerNames := playerNames[newName := id];
      if existed {
        return Panicked(ExistingPlayer(newName));
      }
      status := Completed;
    }

    /**
     * `Market::player_ranges`: clear the player's ranges, then apply the
     * entries in order, panicking at the first unknown contract or invalid
     * range with the earlier entries already applied.
     */
    method PlayerRanges(name: string, entries: seq<RangeEntry>) returns (status: Status)
      requires Valid()
      modifies this
      ensures contractNames == old(contractNames) && playerNames == old(playerNames)
      ensures contracts == old(contracts) && ious == old(ious)
      ensures name !in playerNames ==> status == Panicked(UnknownPlayer(name)) && players == old(players)
      ensures name in playerNames ==>
                var n := AcceptedPrefix(contractNames, entries);
                var p := playerNames[name];
                && players == old(players)[p := old(players)[p].(ranges := DeclaredRanges(contractNames, entries[..n]))]
                && status == if n == |entries| then Completed else Panicked(EntryError(contractNames, entries[n]).value)
      ensures Valid()
    {
      if name !in playerNames {
        return Panicked(UnknownPlayer(name));
      }
      var p := playerNames[name];
      var names := contractNames;
      ghost var player := players[p];
      PlayersValidUpdate(players, |contracts|, p, players[p].ClearRanges());
      players := players[p := players[p].ClearRanges()];
      var i := 0;
      while i < |entries|
        invariant 0 <= i <= |entries|
        invariant forall j :: 0 <= j < i ==> EntryError(names, entries[j]).None?
        invariant players == old(players)[p := player.(ranges := DeclaredRanges(names, entries[..i]))]
        invariant names == contractNames == old(contractNames) && playerNames == old(playerNames)
        invariant contracts == old(contracts) && ious == old(ious)
        invariant PlayersValid(players, |contracts|)
      {
        var (contractName, low, high) := entries[i];
        if contractName !in names {
          AcceptedPrefixAt(names, entries, i);
          return Panicked(ContractDoesNotExist(contractName));
        }
        var c := names[contractName];
        if !(0 <= low && low < high && high <= 100) {
          AcceptedPrefixAt(names, entries, i);
          return Panicked(InvalidRange(contractName, low, high));
        }
        DeclaredRangesStep(names, entries, i);
        RangesValidSet(players[p].ranges, |contracts|, c, low, high);
        var updated := players[p].SetRange(c, low, high);
        assert updated == player.(ranges := DeclaredRanges(names, entries[..i + 1]));
        assert EntryError(names, entries[i]).None?;
        PlayersValidUpdate(players, |contracts|, p, updated);
        players := players[p := updated];
        i := i + 1;
      }
      AcceptedPrefixAt(names, entries, i);
      assert entries[..i] == entries;
      status := Completed;
    }

    /** `Market::increment_credit`: every player's credit limit grows by `amount`. */
    method IncrementCredit(amount: Price)
      requires Valid()
      modifies this
      ensures |players| == |old(players)|
      ensures forall p :: 0 <= p < |players| ==>
                players[p] == old(players[p]).(creditLimit := old(players[p]).creditLimit + amount)
      ensures contractNames == old(contractNames) && playerNames == old(playerNames)
      ensures contracts == old(contracts) && ious == old(ious)
      ensures Valid()
    {
      var i := 0;
      while i < |players|
        invariant 0 <= i <= |players| == |old(players)|
        invariant forall p :: 0 <= p < i ==> players[p] == old(players[p]).(creditLimit := old(players[p]).creditLimit + amount)
        invariant forall p :: i <= p < |players| ==> players[p] == old(players[p])
        invariant contractNames == old(contractNames) && playerNames == old(playerNames)
        invariant contracts == old(contracts) && ious == old(ious)
        invariant Valid()
      {
        players := players[i := players[i].(creditLimit := players[i].creditLimit + amount)];
        i := i + 1;
      }
    }

    /** `Market::calc_exposure`: a fresh `Exposure` with every committed IOU applied in order. */
    method CalcExposure(pid: PlayerId) returns (e: Exposure)
      ensures fresh(e) && e.playerId == pid
      ensures e.State() == Replay(pid, ious)
    {
      e := new Exposure(pid);
      var i := 0;
      while i < |ious|
        invariant 0 <= i <= |ious|
        invariant e.State() == Replay(pid, ious[..i])
      {
        assert ious[..i + 1][..i] == ious[..i];
        e.ApplyIou(ious[i]);
        i := i + 1;
      }
      assert ious[..i] == ious;
    }

    /** What player `pid` stands to lose, by the committed IOUs, if contract `c` resolves true. */
    function CommittedExposure(pid: PlayerId, c: ContractId): Price
      reads this
    {
      Replay(pid, ious).TotalExposureToContract(c)
    }

    /** Player `pid`'s committed exposure is within its limit on every named contract. */
    ghost predicate WithinLimit(pid: PlayerId)
      reads this
      requires pid < |players|
    {
      forall n :: n in contractNames ==> CommittedExposure(pid, contractNames[n]) <= players[pid].creditLimit
    }

    /**
     * Every fill's buyer and seller passed `check_credit_failure` on the
     * committed IOUs, as each completed round of `session` requires.
     */
    ghost predicate CreditChecked(fills: seq<Fill>)
      reads this
    {
      forall i :: 0 <= i < |fills| ==>
        && fills[i].buyerId < |players| && fills[i].sellerId < |players|
        && WithinLimit(fills[i].buyerId) && WithinLimit(fills[i].sellerId)
    }

    /** A fill whose two sides pass the credit check extends `CreditChecked`. */
    lemma CreditCheckedAppend(fills: seq<Fill>, f: Fill)
      requires CreditChecked(fills)
      requires f.buyerId < |players| && f.sellerId < |players|
      requires WithinLimit(f.buyerId) && WithinLimit(f.sellerId)
      ensures CreditChecked(fills + [f])
    {
      assert forall i :: 0 <= i < |fills| ==> (fills + [f])[i] == fills[i];
    }

    /**
     * `panic` is the one `check_credit_failure(pid)` raises: it names the
     * first contract in name order whose committed exposure exceeds the limit.
     */
    ghost predicate CreditPanic(pid: PlayerId, panic: Panic)
      reads this
      requires pid < |players|
    {
      exists n :: && n in contractNames
                  && CommittedExposure(pid, contractNames[n]) > players[pid].creditLimit
                  && panic == CreditExceeded(players[pid].name, n, CommittedExposure(pid, contractNames[n]), players[pid].creditLimit)
                  && forall m :: m in contractNames && StrLess(m, n) ==>
                       CommittedExposure(pid, contractNames[m]) <= players[pid].creditLimit
    }

    /**
     * `Market::check_credit_failure`: visiting contracts in name order, the
     * first whose committed exposure exceeds the player's credit limit is
     * reported. Only the committed IOUs count, not those of a running session.
     */
    method CheckCreditFailure(pid: PlayerId) returns (failure: Option<Panic>)
      requires Valid() && pid < |players|
      ensures failure.None? <==> WithinLimit(pid)
      ensures failure.Some? ==> CreditPanic(pid, failure.value)
    {
      var player := players[pid];
      var exposure := CalcExposure(pid);
      var todo := contractNames.Keys;
      while todo != {}
        invariant todo <= contractNames.Keys
        invariant forall n :: n in contractNames && n !in todo ==> CommittedExposure(pid, contractNames[n]) <= player.creditLimit
        invariant forall n, m :: n in contractNames && n !in todo && m in todo ==> StrLess(n, m)
        invariant exposure.State() == Replay(pid, ious)
        decreases todo
      {
        StrMinExists(todo);
        var n :| n in todo && forall t :: t in todo && t != n ==> StrLess(n, t);
        var c := contractNames[n];
        var ex := exposure.State().TotalExposureToContract(c);
        if ex > player.creditLimit {
          assert CommittedExposure(pid, c) == ex && contracts[c].name == n;
          forall m | m in contractNames && StrLess(m, n)
            ensures CommittedExposure(pid, contractNames[m]) <= player.creditLimit
          {
            StrLessIrreflexive(m);
            if m in todo {
              StrLessAsymmetric(m, n);
            }
          }
          return Some(CreditExceeded(player.name, contracts[c].name, ex, player.creditLimit));
        }
        todo := todo - {n};
      }
      return None;
    }

    /**
     * `Market::player_max_buy_amount`: the buyer's headroom against its
     * worst case if the contract resolves false.
     */
    function PlayerMaxBuyAmount(session: Session, buyerId: PlayerId, contractId: ContractId): (r: Price)
      reads this, session, session.exposures.Values
      requires buyerId < |players| && buyerId in session.exposures
      ensures var worst := session.exposures[buyerId].State().TotalExposureToContractNeg(contractId);
              0 <= r && players[buyerId].creditLimit - worst <= r && (r == 0 || r == players[buyerId].creditLimit - worst)
    {
      BuyHeadroom(players[buyerId].creditLimit, session.exposures[buyerId].State(), contractId)
    }

    /**
     * `Market::player_max_sell_amount`: the seller's headroom against its
     * worst case if the contract resolves true.
     */
    function PlayerMaxSellAmount(session: Session, sellerId: PlayerId, contractId: ContractId): (r: Price)
      reads this, session, session.exposures.Values
      requires sellerId < |players| && sellerId in session.exposures
      ensures var worst := session.exposures[sellerId].State().TotalExposureToContract(contractId);
              0 <= r && players[sellerId].creditLimit - worst <= r && (r == 0 || r == players[sellerId].creditLimit - worst)
    {
      SellHeadroom(players[sellerId].creditLimit, session.exposures[sellerId].State(), contractId)
    }

    /**
     * The first half of a round of `Market::session`: post the book and take
     * the head of `find_trades`. A proposed trade can always be filled: its
     * buyer and seller are two different named players, its ask and bid lie
     * in 1..99, and both have at least 100 of headroom.
     */
    method ProposeTrade(session: Session, ghost states: map<PlayerId, ExposureState>) returns (trade: Option<Trade>)
      requires Valid() && session.Valid() && playerNames.Values <= session.exposures.Keys && states == session.States()
      ensures Valid() && session.Valid() && session.States() == states
      ensures trade.None? <==> QuotesSettled(playerNames.Values, players, states)
      ensures trade.Some? ==>
                var t := trade.value;
                && BestTradeOf(t, playerNames.Values, players, states, contracts)
                && t.contractId < |contracts| && t.contractName == contracts[t.contractId].name
                && t.spread == t.high - t.low
                && t.buyerId in playerNames.Values && t.buyerId in session.exposures && t.buyerId < |players|
                && t.sellerId in playerNames.Values && t.sellerId in session.exposures && t.sellerId < |players|
                && t.buyerId != t.sellerId
                && 1 <= t.low <= t.high <= 99
                && 100 <= BuyHeadroom(players[t.buyerId].creditLimit, states[t.buyerId], t.contractId)
                && 100 <= SellHeadroom(players[t.sellerId].creditLimit, states[t.sellerId], t.contractId)
    {
      ghost var named := playerNames.Values;
      var offers := session.FindOffers(this);
      var book := offers.offers;
      trade := session.FindTrades(this, offers);
      NoCrossingIffSettled(book, named, players, states);
      if trade.Some? {
        CandidateTradable(trade.value, book, contracts, players, named, states);
        assert WellFormed(book) && BookOf(book, named, players, states) && IsBestTrade(trade.value, book, contracts, players);
      }
    }

    /**
     * One round of the loop of `Market::session`: stop when no contract
     * crosses, or fill the best trade of the posted book, apply its two IOUs
     * to the session and check the buyer's, then the seller's, committed
     * credit. The snapshots are those of the committed and session IOUs.
     */
    method SessionStep(session: Session, ghost states: map<PlayerId, ExposureState>) returns (step: Step)
      requires Valid() && session.Valid() && session.committed == ious
      requires session.exposures.Keys == playerNames.Values
      requires states == SessionStates(playerNames.Values, ious + session.ious)
      modifies session, session.exposures.Values
      ensures session.exposures == old(session.exposures) && session.committed == old(session.committed)
      ensures session.Valid()
      ensures step.NoTrade? <==> QuotesSettled(playerNames.Values, players, states)
      ensures step.NoTrade? ==> session.ious == old(session.ious)
      ensures !step.NoTrade? ==>
                var f := step.fill;
                && RoundFill(f, playerNames.Values, players, states, contracts)
                && FillSound(f) && f.buyerId in playerNames.Values && f.sellerId in playerNames.Values
                && session.ious == old(session.ious) + FillIous(f)
      ensures step.Traded? ==>
                var f := step.fill;
                && f.buyerId < |players| && f.sellerId < |players|
                && WithinLimit(f.buyerId) && WithinLimit(f.sellerId)
                && session.exposures[f.buyerId].State().TotalExposureToContractNeg(f.contractId) <= players[f.buyerId].creditLimit
                && session.exposures[f.sellerId].State().TotalExposureToContract(f.contractId) <= players[f.sellerId].creditLimit
      ensures step.Halted? ==>
                var f := step.fill;
                && f.buyerId < |players| && f.sellerId < |players|
                && if !WithinLimit(f.buyerId) then CreditPanic(f.buyerId, step.panic)
                   else !WithinLimit(f.sellerId) && CreditPanic(f.sellerId, step.panic)
    {
      session.StatesReplayed();
      var round := TradeRound(session, states);
      if round.None? {
        return NoTrade;
      }
      var fill := round.value;
      var failure := CheckFillCredit(fill.buyerId, fill.sellerId);
      step := if failure.Some? then Halted(fill, failure.value) else Traded(fill);
    }

    /**
     * The trading half of a round of `Market::session`: no fill when the
     * quotes `states` give are settled, otherwise the round fill of the best
     * trade, applied to the session.
     */
    method TradeRound(session: Session, ghost states: map<PlayerId, ExposureState>) returns (fill: Option<Fill>)
      requires Valid() && session.Valid()
      requires session.exposures.Keys == playerNames.Values && states == session.States()
      modifies session, session.exposures.Values
      ensures session.exposures == old(session.exposures) && session.committed == old(session.committed)
      ensures session.Valid()
      ensures fill.None? <==> QuotesSettled(playerNames.Values, players, states)
      ensures fill.None? ==> session.ious == old(session.ious)
      ensures fill.Some? ==>
                var f := fill.value;
                && RoundFill(f, playerNames.Values, players, states, contracts)
                && FillSound(f) && f.buyerId in playerNames.Values && f.sellerId in playerNames.Values
                && f.buyerId < |players| && f.sellerId < |players|
                && session.ious == old(session.ious) + FillIous(f)
                && session.exposures[f.buyerId].State().TotalExposureToContractNeg(f.contractId) <= players[f.buyerId].creditLimit
                && session.exposures[f.sellerId].State().TotalExposureToContract(f.contractId) <= players[f.sellerId].creditLimit
    {
      var trade := ProposeTrade(session, states);
      if trade.None? {
        return None;
      }
      var f := FillTrade(session, trade.value, states);
      return Some(f);
    }

    /** The two checks that end a round of `Market::session`: the buyer's committed credit, then the seller's. */
    method CheckFillCredit(buyerId: PlayerId, sellerId: PlayerId) returns (failure: Option<Panic>)
      requires Valid() && buyerId < |players| && sellerId < |players|
      ensures failure.None? <==> WithinLimit(buyerId) && WithinLimit(sellerId)
      ensures failure.Some? ==>
                if !WithinLimit(buyerId) then CreditPanic(buyerId, failure.value)
                else CreditPanic(sellerId, failure.value)
    {
      failure := CheckCreditFailure(buyerId);
      if failure.None? {
        failure := CheckCreditFailure(sellerId);
      }
    }

    /**
     * The fill of a round of `Market::session`: price the proposed trade at
     * the truncated mid price, size it by both headrooms, and apply the
     * seller's and then the buyer's IOU to the session.
     */
    method FillTrade(session: Session, t: Trade, ghost states: map<PlayerId, ExposureState>) returns (fill: Fill)
      requires session.Valid()
      requires BestTradeOf(t, playerNames.Values, players, states, contracts)
      requires t.contractId < |contracts| && t.contractName == contracts[t.contractId].name && t.spread == t.high - t.low
      requires t.buyerId < |players| && t.buyerId in session.exposures && t.buyerId in states
      requires t.sellerId < |players| && t.sellerId in session.exposures && t.sellerId in states
      requires states[t.buyerId] == session.exposures[t.buyerId].State()
      requires states[t.sellerId] == session.exposures[t.sellerId].State()
      requires t.buyerId != t.sellerId && 1 <= t.low <= t.high <= 99
      requires 100 <= BuyHeadroom(players[t.buyerId].creditLimit, states[t.buyerId], t.contractId)
      requires 100 <= SellHeadroom(players[t.sellerId].creditLimit, states[t.sellerId], t.contractId)
      modifies session, session.exposures.Values
      ensures session.exposures == old(session.exposures) && session.committed == old(session.committed)
      ensures session.Valid()
      ensures RoundFill(fill, playerNames.Values, players, states, contracts)
      ensures FillSound(fill) && fill.buyerId == t.buyerId && fill.sellerId == t.sellerId
      ensures session.ious == old(session.ious) + FillIous(fill)
      ensures session.exposures[fill.buyerId].State().TotalExposureToContractNeg(fill.contractId) <= players[fill.buyerId].creditLimit
      ensures session.exposures[fill.sellerId].State().TotalExposureToContract(fill.contractId) <= players[fill.sellerId].creditLimit
    {
      var buyMax := PlayerMaxBuyAmount(session, t.buyerId, t.contractId);
      var sellMax := PlayerMaxSellAmount(session, t.sellerId, t.contractId);
      fill := TradeFill(t, buyMax, sellMax);
      assert fill == TradeFill(t, BuyHeadroom(players[t.buyerId].creditLimit, states[t.buyerId], t.contractId),
                                  SellHeadroom(players[t.sellerId].creditLimit, states[t.sellerId], t.contractId));
      session.ApplyFill(fill);
      TradeFillRound(t, playerNames.Values, players, states, contracts);
      TradeFillWithinLimits(t, players[t.buyerId].creditLimit, states[t.buyerId], players[t.sellerId].creditLimit, states[t.sellerId]);
    }

    /**
     * The start of `Market::session`: a session holding, for every named
     * player, the exposure replayed from the committed IOUs.
     */
    method OpenSession() returns (session: Session)
      ensures fresh(session) && fresh(session.exposures.Values)
      ensures session.Valid() && session.committed == ious && session.ious == []
      ensures session.exposures.Keys == playerNames.Values
    {
      session := new Session(ious);
      var todo := playerNames.Keys;
      while todo != {}
        invariant todo <= playerNames.Keys
        invariant fresh(session) && session.committed == ious && session.ious == []
        invariant fresh(session.exposures.Values)
        invariant session.Valid()
        invariant forall n :: n in playerNames && n !in todo ==> playerNames[n] in session.exposures
        invariant session.exposures.Keys <= playerNames.Values
        decreases todo
      {
        NonEmptyNames(todo);
        var n :| n in todo;
        var pid := playerNames[n];
        var e := CalcExposure(pid);
        assert ious + [] == ious;
        ghost var before := session.exposures;
        session.exposures := session.exposures[pid := e];
        forall f | f in session.exposures.Values ensures fresh(f) {
          var q :| q in session.exposures && session.exposures[q] == f;
          if q != pid {
            assert f in before.Values;
          }
        }
        todo := todo - {n};
      }
      assert session.exposures.Keys == playerNames.Values;
    }

    /**
     * The end of `Market::session`: post the book once more and read off
     * every contract's spread. Once the quotes are settled, the crossing
     * panic of `find_spreads` cannot happen and every spread is open.
     */
    method SettledSpreads(session: Session) returns (spreads: map<string, (Price, Price)>)
      requires Valid() && playerNames.Values <= session.exposures.Keys
      requires QuotesSettled(playerNames.Values, players, session.States())
      ensures SpreadsOf(spreads, playerNames.Values, players, old(session.States()), contracts)
      ensures forall n :: n in spreads ==> spreads[n].0 < spreads[n].1
    {
      ghost var states := session.States();
      var offers := session.FindOffers(this);
      ghost var book := offers.offers;
      assert session.States() == states;
      SettledBookOpen(book, playerNames.Values, players, states, |contracts|);
      assert forall c :: c in book ==> c < |contracts|;
      var result := offers.FindSpreads(contracts);
      spreads := result.value;
      NamedSpreadsOpen(book, contracts, spreads);
      SpreadsOfBook(book, spreads, playerNames.Values, players, states, contracts);
    }

    /**
     * The close of `Market::session` once no trade is left: read off the
     * spreads and commit the session's IOUs after the market's own.
     */
    method CloseSession(session: Session) returns (spreads: map<string, (Price, Price)>)
      requires Valid() && session.Valid() && session.committed == ious
      requires session.exposures.Keys == playerNames.Values
      requires QuotesSettled(playerNames.Values, players, SessionStates(playerNames.Values, ious + session.ious))
      modifies this
      ensures contractNames == old(contractNames) && playerNames == old(playerNames)
      ensures contracts == old(contracts) && players == old(players)
      ensures ious == old(ious) + session.ious
      ensures Valid()
      ensures QuotesSettled(playerNames.Values, players, SessionStates(playerNames.Values, ious))
      ensures SpreadsOf(spreads, playerNames.Values, players, SessionStates(playerNames.Values, ious), contracts)
      ensures forall n :: n in spreads ==> spreads[n].0 < spreads[n].1
    {
      session.StatesReplayed();
      spreads := SettledSpreads(session);
      ious := ious + session.ious;
    }

    /**
     * `Market::session`: snapshot every named player's exposure, run matching
     * rounds until no contract crosses, read off the spreads and commit the
     * session's IOUs. `fuel` bounds the number of rounds.
     */
    method RunSession(fuel: nat) returns (result: SessionOutcome)
      requires Valid()
      modifies this
      ensures contractNames == old(contractNames) && playerNames == old(playerNames)
      ensures contracts == old(contracts) && players == old(players)
      ensures Valid()
      ensures RoundFills(result.fills, playerNames.Values, players, contracts, old(ious))
      ensures SoundFills(result.fills)
      ensures old(CreditChecked(result.fills))
      ensures result.OutOfFuel? <==> |result.fills| == fuel
      ensures result.Settled? ==> ious == old(ious) + IousOf(result.fills)
      ensures result.Settled? ==> QuotesSettled(playerNames.Values, players, SessionStates(playerNames.Values, ious))
      ensures result.Settled? ==> SpreadsOf(result.spreads, playerNames.Values, players, SessionStates(playerNames.Values, ious), contracts)
      ensures result.Settled? ==> forall n :: n in result.spreads ==> result.spreads[n].0 < result.spreads[n].1
      ensures !result.Settled? ==> ious == old(ious)
      ensures result.CreditFailure? ==>
                var f := result.last;
                && RoundFill(f, playerNames.Values, players, SessionStates(playerNames.Values, ious + IousOf(result.fills)), contracts)
                && f.buyerId < |players| && f.sellerId < |players|
                && if !WithinLimit(f.buyerId) then CreditPanic(f.buyerId, result.panic)
                   else !WithinLimit(f.sellerId) && CreditPanic(f.sellerId, result.panic)
    {
      var session := OpenSession();
      var fills: seq<Fill> := [];
      var left := fuel;
      while left > 0
        invariant fresh(session) && fresh(session.exposures.Values)
        invariant session.Valid() && session.committed == ious
        invariant session.exposures.Keys == playerNames.Values
        invariant session.ious == IousOf(fills)
        invariant SoundFills(fills) && CreditChecked(fills)
        invariant |fills| + left == fuel
        invariant RoundFills(fills, playerNames.Values, players, contracts, ious)
        invariant contractNames == old(contractNames) && playerNames == old(playerNames)
        invariant contracts == old(contracts) && players == old(players) && ious == old(ious)
        decreases left
      {
        var step := SessionStep(session, SessionStates(playerNames.Values, ious + session.ious));
        match step {
          case NoTrade =>
            var spreads := CloseSession(session);
            return Settled(fills, spreads);
          case Traded(fill) =>
            RoundFillsAppend(fills, fill, playerNames.Values, players, contracts, ious);
            IousOfAppend(fills, fill);
            SoundFillsAppend(fills, fill);
            CreditCheckedAppend(fills, fill);
            fills := fills + [fill];
          case Halted(fill, panic) =>
            return CreditFailure(fills, fill, panic);
        }
        left := left - 1;
      }
      return OutOfFuel(fills);
    }
  }

  /** `Session`: one exposure snapshot per named player, and the IOUs of this session. */
  class Session {
    var exposures: map<PlayerId, Exposure>
    var ious: seq<Iou>
    /** The committed IOUs the snapshots were taken from. */
    ghost var committed: seq<Iou>

    /** Every snapshot is the replay of the committed IOUs followed by the session's. */
    ghost predicate Valid()
      reads this, exposures.Values
    {
      forall p :: p in exposures ==> exposures[p].playerId == p && exposures[p].State() == Replay(p, committed + ious)
    }

    /** The snapshots as values. */
    function States(): map<PlayerId, ExposureState>
      reads this, exposures.Values
    {
      map p | p in exposures :: exposures[p].State()
    }

    /** Under `Valid`, the snapshots are the replays of the committed and session IOUs. */
    lemma StatesReplayed()
      requires Valid()
      ensures States() == SessionStates(exposures.Keys, committed + ious)
    {
    }

    /** `Session::new` */
    constructor (ghost committed: seq<Iou>)
      ensures exposures == map[] && ious == [] && this.committed == committed
      ensures Valid()
    {
      exposures := map[];
      ious := [];
      this.committed := committed;
    }

    /**
     * `Session::apply_iou`: apply the IOU to the issuer's snapshot, then to
     * the holder's, and record it. An IOU a player issues to itself reaches
     * that one snapshot twice.
     */
    method ApplyIou(iou: Iou)
      requires Valid() && iou.issuerId in exposures && iou.holderId in exposures
      modifies this, exposures[iou.issuerId], exposures[iou.holderId]
      ensures exposures == old(exposures) && committed == old(committed) && ious == old(ious) + [iou]
      ensures forall p :: p in exposures && p != iou.issuerId && p != iou.holderId ==>
                exposures[p].State() == old(exposures[p].State())
      ensures iou.issuerId != iou.holderId ==>
                && Valid()
                && exposures[iou.issuerId].State() == Applied(iou.issuerId, old(exposures[iou.issuerId].State()), iou)
                && exposures[iou.holderId].State() == Applied(iou.holderId, old(exposures[iou.holderId].State()), iou)
      ensures iou.issuerId == iou.holderId ==>
                exposures[iou.issuerId].State()
                == Applied(iou.issuerId, Applied(iou.issuerId, old(exposures[iou.issuerId].State()), iou), iou)
    {
      exposures[iou.issuerId].ApplyIou(iou);
      exposures[iou.holderId].ApplyIou(iou);
      ious := ious + [iou];
      assert (committed + ious)[..|committed + ious| - 1] == committed + old(ious);
    }

    /**
     * The IOUs of a fill, as `Market::session` issues them: the seller's "If"
     * IOU first, then the buyer's "Not" IOU, each through `apply_iou`.
     */
    method ApplyFill(f: Fill)
      requires Valid() && f.buyerId in exposures && f.sellerId in exposures && f.buyerId != f.sellerId
      modifies this, exposures.Values
      ensures exposures == old(exposures) && committed == old(committed) && ious == old(ious) + FillIous(f)
      ensures Valid()
      ensures exposures[f.buyerId].State()
              == Applied(f.buyerId, Applied(f.buyerId, old(exposures[f.buyerId].State()), FillIous(f)[0]), FillIous(f)[1])
      ensures exposures[f.sellerId].State()
              == Applied(f.sellerId, Applied(f.sellerId, old(exposures[f.sellerId].State()), FillIous(f)[0]), FillIous(f)[1])
    {
      var sellerIou := Iou(f.sellerId, f.buyerId, f.contractId, true, f.units * (100 - f.price));
      var buyerIou := Iou(f.buyerId, f.sellerId, f.contractId, false, f.units * f.price);
      assert FillIous(f) == [sellerIou, buyerIou];
      ApplyIou(sellerIou);
      ApplyIou(buyerIou);
    }

    /**
     * `Session::find_offers`: for every named player and every contract it
     * has a range for, bid the buy headroom at the low end and ask the sell
     * headroom at the high end, each only when it is at least 100.
     */
    method FindOffers(market: Market) returns (offers: Offers)
      requires market.Valid()
      requires market.playerNames.Values <= exposures.Keys
      ensures fresh(offers)
      ensures WellFormed(offers.offers)
      ensures BookOf(offers.offers, market.playerNames.Values, market.players, States())
      ensures Grounded(offers.offers, |market.contracts|, |market.players|)
    {
      ghost var named, players, states := market.playerNames.Values, market.players, States();
      offers := new Offers();
      var todo := market.playerNames.Keys;
      ghost var done: set<PlayerId> := {};
      while todo != {}
        invariant todo <= market.playerNames.Keys
        invariant fresh(offers) && WellFormed(offers.offers)
        invariant done <= named
        invariant forall n :: n in market.playerNames && n !in todo ==> market.playerNames[n] in done
        invariant PostedBy(offers.offers, named, players, states, done)
        decreases todo
      {
        NonEmptyNames(todo);
        var n :| n in todo;
        var pid := market.playerNames[n];
        var ranges := market.players[pid].ranges;
        var left := ranges.Keys;
        PostedSoFarStart(offers.offers, named, players, states, done, pid);
        while left != {}
          invariant left <= ranges.Keys
          invariant fresh(offers) && WellFormed(offers.offers)
          invariant PostedSoFar(offers.offers, named, players, states, done, pid, left)
          decreases left
        {
          var c: ContractId := SetMin(left);
          var (low, high) := ranges[c];
          PostedSoFarStep(offers.offers, named, players, states, done, pid, left, c);
          var buyAmount := market.PlayerMaxBuyAmount(this, pid, c);
          var sellAmount := market.PlayerMaxSellAmount(this, pid, c);
          if buyAmount >= 100 {
            offers.AddBuyOffer(c, pid, low, buyAmount);
          }
          if sellAmount >= 100 {
            offers.AddSellOffer(c, pid, high, sellAmount);
          }
          left := left - {c};
        }
        PostedSoFarFinish(offers.offers, named, players, states, done, pid);
        done := done + {pid};
        todo := todo - {n};
      }
      assert forall x :: x in named ==> x in done;
      PostedBookGrounded(offers.offers, named, players, states, |market.contracts|);
    }

    /**
     * `Session::find_trades` followed by taking the head of its result: among
     * the crossing contracts, visited in ascending id, the candidate trade
     * that is largest in the tuple order, or `None` when nothing crosses.
     */
    method FindTrades(market: Market, offers: Offers) returns (trade: Option<Trade>)
      requires WellFormed(offers.offers) && Grounded(offers.offers, |market.contracts|, |market.players|)
      ensures trade.None? <==> forall c :: c in offers.offers ==> !Crossing(offers.offers[c])
      ensures trade.Some? ==> IsBestTrade(trade.value, offers.offers, market.contracts, market.players)
    {
      var book := offers.offers;
      var contracts, players := market.contracts, market.players;
      trade := None;
      var todo := book.Keys;
      while todo != {}
        invariant todo <= book.Keys
        invariant BestAmong(trade, book, contracts, players, todo)
        decreases todo
      {
        var c: ContractId := SetMin(todo);
        var co := book[c];
        var bestBid, bestAsk := BestBid(co), BestAsk(co);
        if bestBid.Some? && bestAsk.Some? && bestAsk.value <= bestBid.value {
          var high, low := bestBid.value, bestAsk.value;
          var buyerId := PickBest(co.buy[high], players);
          var sellerId := PickBest(co.sell[low], players);
          var t := Trade(high - low, contracts[c].name, c, buyerId, high, sellerId, low);
          BestAmongTake(trade, t, book, contracts, players, todo);
          trade := Better(trade, t);
        } else {
          BestAmongSkip(trade, book, contracts, players, todo, c);
        }
        todo := todo - {c};
      }
    }
  }
}
