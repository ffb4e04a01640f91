/**
 * The order book a session builds: per contract, the bids (`buy`) and asks
 * (`sell`) by price, and per price the amount each player posts.
 */
module Books {
  import opened Wrappers
  import opened MapFolds
  import opened Entities

  /** The players quoting at one price, with the amount each posts. */
  type Level = map<PlayerId, Price>

  /** `ContractOffers`: the bids and asks of one contract, by price. */
  datatype ContractOffers = ContractOffers(buy: map<Price, Level>, sell: map<Price, Level>)

  /** `ContractOffers::new` */
  const NoOffers := ContractOffers(map[], map[])

  type Book = map<ContractId, ContractOffers>

  /** The amount `p` posts at `price` on one side of a contract, if any. */
  function QuoteAt(side: map<Price, Level>, price: Price, p: PlayerId): Option<Price> {
    if price in side && p in side[price] then Some(side[price][p]) else None
  }

  function Entry(book: Book, c: ContractId): ContractOffers {
    if c in book then book[c] else NoOffers
  }

  /** The amount `p` bids for contract `c` at `price`, if any. */
  function BidAt(book: Book, c: ContractId, price: Price, p: PlayerId): Option<Price> {
    QuoteAt(Entry(book, c).buy, price, p)
  }

  /** The amount `p` asks for contract `c` at `price`, if any. */
  function AskAt(book: Book, c: ContractId, price: Price, p: PlayerId): Option<Price> {
    QuoteAt(Entry(book, c).sell, price, p)
  }

  /** `side.entry(price).or_insert_with(BTreeMap::new).insert(p, amount)` */
  function WithQuote(side: map<Price, Level>, price: Price, p: PlayerId, amount: Price): (r: map<Price, Level>)
    ensures forall q, x :: QuoteAt(r, q, x) == if q == price && x == p then Some(amount) else QuoteAt(side, q, x)
    ensures r.Keys == side.Keys + {price} && p in r[price]
    ensures forall q :: q in side && q != price ==> r[q] == side[q]
    ensures r != map[] && ((forall q :: q in side ==> side[q] != map[]) ==> forall q :: q in r ==> r[q] != map[])
  {
    var level := if price in side then side[price] else map[];
    side[price := level[p := amount]]
  }

  /** No empty price level, and no contract entry without a quote. */
  ghost predicate WellFormed(book: Book) {
    forall c :: c in book ==>
      && (book[c].buy != map[] || book[c].sell != map[])
      && (forall q :: q in book[c].buy ==> book[c].buy[q] != map[])
      && (forall q :: q in book[c].sell ==> book[c].sell[q] != map[])
  }

  /** Bids lie in 0..99 and asks in 1..100, as valid ranges produce them. */
  ghost predicate QuotesInRange(book: Book) {
    forall c :: c in book ==>
      && (forall q :: q in book[c].buy ==> 0 <= q <= 99)
      && (forall q :: q in book[c].sell ==> 1 <= q <= 100)
  }

  /** The book after `Offers::add_buy_offer`. */
  function WithBid(book: Book, c: ContractId, p: PlayerId, price: Price, amount: Price): (r: Book)
    ensures forall c', q, x :: BidAt(r, c', q, x) == if c' == c && q == price && x == p then Some(amount) else BidAt(book, c', q, x)
    ensures forall c', q, x :: AskAt(r, c', q, x) == AskAt(book, c', q, x)
    ensures WellFormed(book) ==> WellFormed(r)
  {
    var co := Entry(book, c);
    book[c := co.(buy := WithQuote(co.buy, price, p, amount))]
  }

  /** The book after `Offers::add_sell_offer`. */
  function WithAsk(book: Book, c: ContractId, p: PlayerId, price: Price, amount: Price): (r: Book)
    ensures forall c', q, x :: AskAt(r, c', q, x) == if c' == c && q == price && x == p then Some(amount) else AskAt(book, c', q, x)
    ensures forall c', q, x :: BidAt(r, c', q, x) == BidAt(book, c', q, x)
    ensures WellFormed(book) ==> WellFormed(r)
  {
    var co := Entry(book, c);
    book[c := co.(sell := WithQuote(co.sell, price, p, amount))]
  }

  /**
   * Contract and player ids are those of the market, bids lie in 0..99 and
   * asks in 1..100, as valid ranges produce them.
   */
  ghost predicate Grounded(book: Book, contractCount: nat, playerCount: nat) {
    && QuotesInRange(book)
    && forall c :: c in book ==>
         && c < contractCount
         && (forall q :: q in book[c].buy ==> forall x :: x in book[c].buy[q] ==> x < playerCount)
         && (forall q :: q in book[c].sell ==> forall x :: x in book[c].sell[q] ==> x < playerCount)
  }

  /** A well-formed book is grounded as soon as each of its quotes is. */
  lemma GroundedByQuotes(book: Book, contractCount: nat, playerCount: nat)
    requires WellFormed(book)
    requires forall c: ContractId, q: Price, x: PlayerId :: BidAt(book, c, q, x).Some? ==> c < contractCount && x < playerCount && 0 <= q <= 99
    requires forall c: ContractId, q: Price, x: PlayerId :: AskAt(book, c, q, x).Some? ==> c < contractCount && x < playerCount && 1 <= q <= 100
    ensures Grounded(book, contractCount, playerCount)
  {
    forall c | c in book
      ensures c < contractCount
      ensures forall q :: q in book[c].buy ==> 0 <= q <= 99 && forall x :: x in book[c].buy[q] ==> x < playerCount
      ensures forall q :: q in book[c].sell ==> 1 <= q <= 100 && forall x :: x in book[c].sell[q] ==> x < playerCount
    {
      forall q | q in book[c].buy
        ensures 0 <= q <= 99 && forall x :: x in book[c].buy[q] ==> x < playerCount
      {
        forall x | x in book[c].buy[q] ensures x < playerCount && 0 <= q <= 99 {
          assert BidAt(book, c, q, x).Some?;
        }
        NonEmptyLevel(book[c].buy[q]);
      }
      forall q | q in book[c].sell
        ensures 1 <= q <= 100 && forall x :: x in book[c].sell[q] ==> x < playerCount
      {
        forall x | x in book[c].sell[q] ensures x < playerCount && 1 <= q <= 100 {
          assert AskAt(book, c, q, x).Some?;
        }
        NonEmptyLevel(book[c].sell[q]);
      }
      if book[c].buy != map[] {
        var q := SetMin(book[c].buy.Keys);
        NonEmptyLevel(book[c].buy[q]);
        var x :| x in book[c].buy[q];
        assert BidAt(book, c, q, x).Some?;
      } else {
        var q := SetMin(book[c].sell.Keys);
        NonEmptyLevel(book[c].sell[q]);
        var x :| x in book[c].sell[q];
        assert AskAt(book, c, q, x).Some?;
      }
    }
  }

  /** One side of a contract with no empty level is determined by its quotes. */
  lemma SameQuotesSameSide(a: map<Price, Level>, b: map<Price, Level>)
    requires forall q :: q in a ==> a[q] != map[]
    requires forall q :: q in b ==> b[q] != map[]
    requires forall q, x :: QuoteAt(a, q, x) == QuoteAt(b, q, x)
    ensures a == b
  {
    forall q | q in a ensures q in b && a[q] == b[q] {
      NonEmptyLevel(a[q]);
      var x :| x in a[q];
      assert QuoteAt(a, q, x).Some?;
      forall y | y in a[q] ensures y in b[q] && a[q][y] == b[q][y] {
        assert QuoteAt(a, q, y) == QuoteAt(b, q, y);
      }
      forall y | y in b[q] ensures y in a[q] {
        assert QuoteAt(a, q, y) == QuoteAt(b, q, y);
      }
    }
    forall q | q in b ensures q in a {
      NonEmptyLevel(b[q]);
      var x :| x in b[q];
      assert QuoteAt(b, q, x).Some?;
    }
  }

  /** A contract of a well-formed book has at least one quote. */
  lemma QuotedContract(book: Book, c: ContractId)
    requires WellFormed(book) && c in book
    ensures exists q, x :: BidAt(book, c, q, x).Some? || AskAt(book, c, q, x).Some?
  {
    var co := book[c];
    if co.buy != map[] {
      var q := SetMin(co.buy.Keys);
      NonEmptyLevel(co.buy[q]);
      var x :| x in co.buy[q];
      assert BidAt(book, c, q, x).Some?;
    } else {
      var q := SetMin(co.sell.Keys);
      NonEmptyLevel(co.sell[q]);
      var x :| x in co.sell[q];
      assert AskAt(book, c, q, x).Some?;
    }
  }

  /** A well-formed book is determined by its quotes: two with the same bids
    * and asks are the same book. */
  lemma SameQuotesSameBook(a: Book, b: Book)
    requires WellFormed(a) && WellFormed(b)
    requires forall c, q, x :: BidAt(a, c, q, x) == BidAt(b, c, q, x)
    requires forall c, q, x :: AskAt(a, c, q, x) == AskAt(b, c, q, x)
    ensures a == b
  {
    forall c | c in a ensures c in b {
      QuotedContract(a, c);
      var q, x :| BidAt(a, c, q, x).Some? || AskAt(a, c, q, x).Some?;
      assert BidAt(b, c, q, x).Some? || AskAt(b, c, q, x).Some?;
    }
    forall c | c in b ensures c in a {
      QuotedContract(b, c);
      var q, x :| BidAt(b, c, q, x).Some? || AskAt(b, c, q, x).Some?;
      assert BidAt(a, c, q, x).Some? || AskAt(a, c, q, x).Some?;
    }
    forall c | c in a ensures a[c] == b[c] {
      forall q, x ensures QuoteAt(a[c].buy, q, x) == QuoteAt(b[c].buy, q, x) {
        assert BidAt(a, c, q, x) == BidAt(b, c, q, x);
      }
      forall q, x ensures QuoteAt(a[c].sell, q, x) == QuoteAt(b[c].sell, q, x) {
        assert AskAt(a, c, q, x) == AskAt(b, c, q, x);
      }
      SameQuotesSameSide(a[c].buy, b[c].buy);
      SameQuotesSameSide(a[c].sell, b[c].sell);
    }
  }

  lemma NonEmptyLevel(level: Level)
    requires level != map[]
    ensures exists x :: x in level
  {
    if forall x :: x !in level {
      assert false;
    }
  }

  /** The highest bid price, `buy.keys().rev().next()`. */
  function BestBid(co: ContractOffers): Option<Price> {
    if co.buy == map[] then None else Some(SetMax(co.buy.Keys))
  }

  /** The lowest ask price, `sell.keys().next()`. */
  function BestAsk(co: ContractOffers): Option<Price> {
    if co.sell == map[] then None else Some(SetMin(co.sell.Keys))
  }

  /** The best bid is the highest bid price and the best ask the lowest ask
    * price; each is missing exactly when its side is empty. */
  lemma BestQuotesExtreme(co: ContractOffers)
    ensures BestBid(co).None? <==> co.buy == map[]
    ensures BestBid(co).Some? ==> BestBid(co).value in co.buy && forall q :: q in co.buy ==> q <= BestBid(co).value
    ensures BestAsk(co).None? <==> co.sell == map[]
    ensures BestAsk(co).Some? ==> BestAsk(co).value in co.sell && forall q :: q in co.sell ==> BestAsk(co).value <= q
  {
  }

  /** A contract crosses when its lowest ask is at or below its highest bid. */
  predicate Crossing(co: ContractOffers) {
    BestBid(co).Some? && BestAsk(co).Some? && BestAsk(co).value <= BestBid(co).value
  }

  /**
   * A contract of a well-formed book crosses exactly when some player asks
   * at or below a price some player bids.
   */
  lemma CrossingIffQuotesCross(book: Book, c: ContractId)
    requires WellFormed(book)
    ensures (c in book && Crossing(book[c])) <==>
              exists bid, x, ask, y :: BidAt(book, c, bid, x).Some? && AskAt(book, c, ask, y).Some? && ask <= bid
  {
    if c in book && Crossing(book[c]) {
      var co := book[c];
      var bid := SetMax(co.buy.Keys);
      var ask := SetMin(co.sell.Keys);
      NonEmptyLevel(co.buy[bid]);
      var x :| x in co.buy[bid];
      NonEmptyLevel(co.sell[ask]);
      var y :| y in co.sell[ask];
      assert BidAt(book, c, bid, x).Some? && AskAt(book, c, ask, y).Some?;
    }
    if exists bid, x, ask, y :: BidAt(book, c, bid, x).Some? && AskAt(book, c, ask, y).Some? && ask <= bid {
      var bid, x, ask, y :| BidAt(book, c, bid, x).Some? && AskAt(book, c, ask, y).Some? && ask <= bid;
      var co := book[c];
      assert bid in co.buy && ask in co.sell;
      assert BestAsk(co).value <= ask <= bid <= BestBid(co).value;
    }
  }

  /** The (bid, ask) pair `find_spreads` reports: an empty side reads as 0 or 100. */
  function Spread(co: ContractOffers): (Price, Price) {
    (BestBid(co).GetOr(0), BestAsk(co).GetOr(100))
  }

  /**
   * Once no contract crosses, every reported spread is open (bid below ask),
   * so the check `find_spreads` makes after the matching loop cannot fail.
   */
  lemma SettledBookHasOpenSpreads(book: Book)
    requires QuotesInRange(book)
    requires forall c :: c in book ==> !Crossing(book[c])
    ensures forall c :: c in book ==> Open(book[c])
  {
    forall c | c in book ensures Open(book[c]) {
      var co := book[c];
      if co.buy != map[] {
        assert 0 <= SetMax(co.buy.Keys) <= 99;
      }
      if co.sell != map[] {
        assert 1 <= SetMin(co.sell.Keys) <= 100;
      }
    }
  }

  /** The panic `find_spreads` raises on a crossed contract, with what it prints. */
  datatype Crossed = Crossed(name: string, buy: Price, sell: Price)

  /** The contract's reported spread is open: its bid is below its ask. */
  predicate Open(co: ContractOffers)
  {
    Spread(co).0 < Spread(co).1
  }

  /** `c` is the lowest-numbered contract whose spread is not open. */
  predicate FirstCrossed(book: Book, c: ContractId)
  {
    c in book && !Open(book[c]) && forall d :: d in book && d < c ==> Open(book[d])
  }

  /** Visiting contracts in ascending order, the first one found not open is
    * the lowest-numbered such contract. */
  lemma FirstCrossedFound(book: Book, todo: set<ContractId>, c: ContractId)
    requires todo <= book.Keys && c in todo && forall d :: d in todo ==> c <= d
    requires forall d :: d in book && d !in todo ==> Open(book[d])
    requires !Open(book[c])
    ensures FirstCrossed(book, c)
  {
  }

  /** `spreads` maps the name of every contract in `done` to a spread, and
    * each of its entries is the spread of some contract in `done` with that
    * name. */
  ghost predicate NamedSpreads(book: Book, contracts: seq<Contract>, done: set<ContractId>,
                               spreads: map<string, (Price, Price)>)
    requires done <= book.Keys && forall c :: c in book ==> c < |contracts|
  {
    && (forall c :: c in done ==> contracts[c].name in spreads)
    && (forall n :: n in spreads ==>
          exists c :: c in done && contracts[c].name == n && spreads[n] == Spread(book[c]))
  }

  /** When every contract's spread is open, so is every recorded spread. */
  lemma NamedSpreadsOpen(book: Book, contracts: seq<Contract>, spreads: map<string, (Price, Price)>)
    requires forall c :: c in book ==> c < |contracts|
    requires NamedSpreads(book, contracts, book.Keys, spreads)
    requires forall c :: c in book ==> Open(book[c])
    ensures forall n :: n in spreads ==> spreads[n].0 < spreads[n].1
  {
    forall n | n in spreads ensures spreads[n].0 < spreads[n].1 {
      var c :| c in book && contracts[c].name == n && spreads[n] == Spread(book[c]);
    }
  }

  /** Recording one more contract's spread under its name keeps the record
    * exact, even when an earlier contract of the same name is overwritten. */
  lemma NamedSpreadsStep(book: Book, contracts: seq<Contract>, done: set<ContractId>,
                         spreads: map<string, (Price, Price)>, c: ContractId)
    requires done <= book.Keys && c in book && forall c :: c in book ==> c < |contracts|
    requires NamedSpreads(book, contracts, done, spreads)
    ensures NamedSpreads(book, contracts, done + {c}, spreads[contracts[c].name := Spread(book[c])])
  {
    var spreads' := spreads[contracts[c].name := Spread(book[c])];
    forall n | n in spreads'
      ensures exists d :: d in done + {c} && contracts[d].name == n && spreads'[n] == Spread(book[d])
    {
      if n != contracts[c].name {
        var d :| d in done && contracts[d].name == n && spreads[n] == Spread(book[d]);
        assert d in done + {c};
      }
    }
  }

  /** `Offers`: the book, filled in place by `add_buy_offer` and `add_sell_offer`. */
  class Offers {
    var offers: Book

    /** `Offers::new` */
    constructor ()
      ensures offers == map[]
    {
      offers := map[];
    }

    /** `Offers::add_buy_offer`: `p` bids `amount` for contract `c` at `low`. */
    method AddBuyOffer(c: ContractId, p: PlayerId, low: Price, amount: Price)
      modifies this
      ensures offers == WithBid(old(offers), c, p, low, amount)
    {
      var co := if c in offers then offers[c] else NoOffers;
      var level := if low in co.buy then co.buy[low] else map[];
      offers := offers[c := co.(buy := co.buy[low := level[p := amount]])];
    }

    /** `Offers::add_sell_offer`: `p` asks `amount` for contract `c` at `high`. */
    method AddSellOffer(c: ContractId, p: PlayerId, high: Price, amount: Price)
      modifies this
      ensures offers == WithAsk(old(offers), c, p, high, amount)
    {
      var co := if c in offers then offers[c] else NoOffers;
      var level := if high in co.sell then co.sell[high] else map[];
      offers := offers[c := co.(sell := co.sell[high := level[p := amount]])];
    }

    /**
     * `Offers::find_spreads`: the (bid, ask) of every contract in the book,
     * keyed by contract name, visiting contracts in ascending id; it panics on
     * the first contract whose ask is at or below its bid.
     */
    method FindSpreads(contracts: seq<Contract>) returns (r: Result<map<string, (Price, Price)>, Crossed>)
      requires forall c :: c in offers ==> c < |contracts|
      ensures r.Success? <==> forall c :: c in offers ==> Open(offers[c])
      ensures r.Success? ==> NamedSpreads(offers, contracts, offers.Keys, r.value)
      ensures r.Failure? ==>
                exists c: ContractId :: FirstCrossed(offers, c) &&
                            r.error == Crossed(contracts[c].name, Spread(offers[c]).0, Spread(offers[c]).1)
    {
      var book := offers;
      var spreads: map<string, (Price, Price)> := map[];
      var todo := book.Keys;
      ghost var done: set<ContractId> := {};
      while todo != {}
        invariant todo <= book.Keys && done == book.Keys - todo
        invariant forall c :: c in done ==> Open(book[c])
        invariant NamedSpreads(book, contracts, done, spreads)
        decreases todo
      {
        var c: ContractId := SetMin(todo);
        var contract := contracts[c];
        var (buy, sell) := Spread(book[c]);
        if sell <= buy {
          FirstCrossedFound(book, todo, c);
          return Failure(Crossed(contract.name, buy, sell));
        }
        NamedSpreadsStep(book, contracts, done, spreads, c);
        spreads := spreads[contract.name := (buy, sell)];
        todo := todo - {c};
        done := done + {c};
      }
      return Success(spreads);
    }
  }
}
