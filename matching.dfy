/**
 * The arithmetic and the orderings of one matching step: the trade price,
 * the trade size, the two IOUs a fill emits, how a price level picks its
 * participant and how the candidate trades are ranked.
 */
module Matching {
  import opened MapFolds
  import opened Entities
  import opened Ordering
  import opened Exposures

  /** Rust's `/` on `i32`: the quotient truncated toward zero. */
  function Quot(a: int, b: int): (q: int)
    requires b > 0
    ensures 0 <= a ==> 0 <= q && q * b <= a < (q + 1) * b
  {
    if a >= 0 then a / b else -((-a) / b)
  }

  /**
   * `(low + high) / 2`: the price of a fill between the best ask `low` and
   * the best bid `high`. Whenever the two cross inside 1..99 the price lies
   * between them.
   */
  function TradePrice(low: Price, high: Price): (price: Price)
    ensures 1 <= low <= high <= 99 ==> 1 <= low <= price <= high <= 99
  {
    Quot(low + high, 2)
  }

  /**
   * `min(buy_max_amount / price, seller_max_amount / (100 - price))`: the most
   * units both headrooms allow, the buyer paying `price` and the seller
   * `100 - price` per unit.
   */
  function TradeUnits(buyMax: Price, sellMax: Price, price: Price): (units: int)
    requires 0 < price < 100
    ensures 0 <= buyMax && 0 <= sellMax ==>
              && 0 <= units
              && units * price <= buyMax
              && units * (100 - price) <= sellMax
              && ((units + 1) * price > buyMax || (units + 1) * (100 - price) > sellMax)
    ensures price <= buyMax && 100 - price <= sellMax ==> 0 < units
  {
    var b := Quot(buyMax, price);
    var s := Quot(sellMax, 100 - price);
    if b < s then
      assert 0 <= buyMax ==> b * (100 - price) <= s * (100 - price) by {
        if 0 <= buyMax { MultiplyMonotone(b, s, 100 - price); }
      }
      b
    else
      assert 0 <= sellMax ==> s * price <= b * price by {
        if 0 <= sellMax { MultiplyMonotone(s, b, price); }
      }
      s
  }

  /** Arithmetic aid for `TradeUnits`, not a property of the market: scaling by a natural keeps the order. */
  lemma MultiplyMonotone(a: int, b: int, k: nat)
    requires a <= b
    ensures a * k <= b * k
  {
  }

  /**
   * A fill of `units` units of contract `contractId` at `price`, between the
   * best bid `high` of `buyerId` and the best ask `low` of `sellerId`.
   */
  datatype Fill = Fill(contractId: ContractId, buyerId: PlayerId, high: Price, sellerId: PlayerId, low: Price, price: Price, units: int)

  /** What every fill of a session satisfies. */
  predicate FillSound(f: Fill) {
    && 1 <= f.low <= f.price <= f.high <= 99
    && f.price == TradePrice(f.low, f.high)
    && 0 < f.units
    && f.buyerId != f.sellerId
  }

  /**
   * The two IOUs of a fill: the seller owes the buyer `units * (100 - price)`
   * if the contract resolves true, the buyer owes the seller `units * price`
   * if it resolves false. Whatever the outcome, one side pays and the two
   * stakes add up to `units * 100`.
   */
  function FillIous(f: Fill): (r: seq<Iou>)
    ensures |r| == 2
    ensures r[0].issuerId == f.sellerId && r[0].holderId == f.buyerId && r[0].condition
    ensures r[1].issuerId == f.buyerId && r[1].holderId == f.sellerId && !r[1].condition
    ensures r[0].contractId == r[1].contractId == f.contractId
    ensures r[0].amount == f.units * (100 - f.price) && r[1].amount == f.units * f.price
    ensures r[0].amount + r[1].amount == f.units * 100
    ensures FillSound(f) ==> 0 < r[0].amount && 0 < r[1].amount
  {
    Stakes(f.units, f.price);
    [Iou(f.sellerId, f.buyerId, f.contractId, true, f.units * (100 - f.price)),
     Iou(f.buyerId, f.sellerId, f.contractId, false, f.units * f.price)]
  }

  /** Arithmetic aid for `FillIous`, not a property of the market: the two stakes of a unit add up to 100. */
  lemma Stakes(units: int, price: int)
    ensures units * (100 - price) + units * price == units * 100
    ensures 0 < units && 0 < price < 100 ==> 0 < units * (100 - price) && 0 < units * price
  {
  }

  /**
   * The buyer's snapshot after a fill: holding the seller's IOU lowers its
   * "If c" position by the seller's stake, issuing its own raises its "Not c"
   * position by what it pays.
   */
  lemma BuyerAfterFill(s: ExposureState, f: Fill)
    requires f.buyerId != f.sellerId
    ensures var ious := FillIous(f);
            Applied(f.buyerId, Applied(f.buyerId, s, ious[0]), ious[1])
            == s.(exposure := AddTo(s.exposure, f.contractId, -ious[0].amount),
                  negExposure := AddTo(s.negExposure, f.contractId, ious[1].amount))
  {
  }

  /**
   * The seller's snapshot after a fill: issuing its IOU raises its "If c"
   * position by its stake, holding the buyer's lowers its "Not c" position by
   * what the buyer pays.
   */
  lemma SellerAfterFill(s: ExposureState, f: Fill)
    requires f.buyerId != f.sellerId
    ensures var ious := FillIous(f);
            Applied(f.sellerId, Applied(f.sellerId, s, ious[0]), ious[1])
            == s.(exposure := AddTo(s.exposure, f.contractId, ious[0].amount),
                  negExposure := AddTo(s.negExposure, f.contractId, -ious[1].amount))
  {
  }

  /**
   * A new "Not c" debt of `paid`, with any change to the "If c" position,
   * raises the worst case if `c` resolves false by at most `paid`: the "If"
   * positions it counts are those of the other contracts.
   */
  lemma NotDebtGrowth(s: ExposureState, c: ContractId, d: Price, paid: Price)
    requires 0 <= paid
    ensures var t := s.(exposure := AddTo(s.exposure, c, d), negExposure := AddTo(s.negExposure, c, paid));
            t.TotalExposureToContractNeg(c) <= s.TotalExposureToContractNeg(c) + paid
  {
    PositiveOthersIgnoresTarget(s.exposure, c, d);
    DebtsGrowBy(s.negExposure, c, paid);
  }

  /** Changing the "If" position on `c` leaves those on other contracts alone. */
  lemma PositiveOthersIgnoresTarget(m: map<ContractId, Price>, c: ContractId, d: Price)
    ensures PositiveOthers(AddTo(m, c, d), c) == PositiveOthers(m, c)
  {
  }

  /** A "Not" debt of `paid` raises the sum of the debts by at most `paid`. */
  lemma DebtsGrowBy(neg: map<ContractId, Price>, c: ContractId, paid: Price)
    requires 0 <= paid
    ensures Sum(Positive(AddTo(neg, c, paid))) <= Sum(Positive(neg)) + paid
  {
    var v := Get(neg, c) + paid;
    assert Sum(Positive(AddTo(neg, c, paid))) == Sum(Positive(neg[c := v])) by {
      assert AddTo(neg, c, paid) == neg[c := v];
    }
    SumPositiveUpdate(neg, c, v);
  }

  /**
   * The buyer's side of a fill: the worst case if `c` resolves false, which
   * sized the bid, grows by at most what the buyer pays (its IOU's amount,
   * `units * price`).
   */
  lemma BuyerWorstCaseGrowth(s: ExposureState, f: Fill)
    requires FillSound(f)
    ensures var ious := FillIous(f);
            var t := Applied(f.buyerId, Applied(f.buyerId, s, ious[0]), ious[1]);
            t.TotalExposureToContractNeg(f.contractId) <= s.TotalExposureToContractNeg(f.contractId) + ious[1].amount
  {
    var ious := FillIous(f);
    BuyerAfterFill(s, f);
    NotDebtGrowth(s, f.contractId, -ious[0].amount, ious[1].amount);
  }

  /**
   * The seller's side of a fill: holding the buyer's "Not c" IOU does not
   * count when `c` resolves true, so the worst case if `c` resolves true,
   * which sized the ask, grows by exactly the seller's stake (its IOU's
   * amount, `units * (100 - price)`).
   */
  lemma SellerWorstCaseGrowth(s: ExposureState, f: Fill)
    requires FillSound(f)
    ensures var ious := FillIous(f);
            var t := Applied(f.sellerId, Applied(f.sellerId, s, ious[0]), ious[1]);
            t.TotalExposureToContract(f.contractId) == s.TotalExposureToContract(f.contractId) + ious[0].amount
  {
    var ious := FillIous(f);
    var c, staked, paid := f.contractId, ious[0].amount, ious[1].amount;
    var t := s.(exposure := AddTo(s.exposure, c, staked), negExposure := AddTo(s.negExposure, c, -paid));
    assert Applied(f.sellerId, Applied(f.sellerId, s, ious[0]), ious[1]) == t by {
      SellerAfterFill(s, f);
    }
    StakeAndCredit(s, c, staked, paid);
  }

  /**
   * A stake on the "If c" position and a credit on the "Not c" position move
   * the worst case if `c` resolves true by the stake alone.
   */
  lemma StakeAndCredit(s: ExposureState, c: ContractId, staked: Price, paid: Price)
    ensures var t := s.(exposure := AddTo(s.exposure, c, staked), negExposure := AddTo(s.negExposure, c, -paid));
            t.TotalExposureToContract(c) == s.TotalExposureToContract(c) + staked
  {
    SumUpdate(s.negExposure, c, Get(s.negExposure, c) - paid);
    assert AddTo(s.negExposure, c, -paid) == s.negExposure[c := Get(s.negExposure, c) - paid];
  }

  /** The IOUs of a sequence of fills, in order. */
  function IousOf(fills: seq<Fill>): seq<Iou>
    decreases |fills|
  {
    if fills == [] then [] else IousOf(fills[..|fills| - 1]) + FillIous(fills[|fills| - 1])
  }

  /** One more fill adds its two IOUs at the end. */
  lemma IousOfAppend(fills: seq<Fill>, f: Fill)
    ensures IousOf(fills + [f]) == IousOf(fills) + FillIous(f)
  {
    assert (fills + [f])[..|fills|] == fills;
  }

  /** Every fill of a session is sound. */
  predicate SoundFills(fills: seq<Fill>) {
    forall i :: 0 <= i < |fills| ==> FillSound(fills[i])
  }

  /** A sound fill extends a list of sound fills. */
  lemma SoundFillsAppend(fills: seq<Fill>, f: Fill)
    requires SoundFills(fills) && FillSound(f)
    ensures SoundFills(fills + [f])
  {
  }

  /** The `(amount, name, id)` tuple `find_trades` sorts a price level by. */
  datatype Candidate = Candidate(amount: Price, name: string, id: PlayerId)

  /**
   * `a` is picked before `b`: a larger amount wins; among equal amounts the
   * smaller name, then the smaller id.
   */
  predicate Outranks(a: Candidate, b: Candidate) {
    a.amount > b.amount || (a.amount == b.amount && (StrLess(a.name, b.name) || (a.name == b.name && a.id < b.id)))
  }

  lemma OutranksTransitive(a: Candidate, b: Candidate, c: Candidate)
    requires Outranks(a, b) && Outranks(b, c)
    ensures Outranks(a, c)
  {
    if a.amount == b.amount == c.amount && StrLess(a.name, b.name) && StrLess(b.name, c.name) {
      StrLessTransitive(a.name, b.name, c.name);
    }
  }

  /** Two different candidates are always ordered, one way only. */
  lemma OutranksStrictTotal(a: Candidate, b: Candidate)
    ensures a == b || Outranks(a, b) || Outranks(b, a)
    ensures !(Outranks(a, b) && Outranks(b, a))
  {
    StrLessTotal(a.name, b.name);
    if StrLess(a.name, b.name) {
      StrLessAsymmetric(a.name, b.name);
    }
  }

  /** A candidate trade: the tuple `find_trades` collects per crossing contract. */
  datatype Trade = Trade(spread: Price, contractName: string, contractId: ContractId,
                         buyerId: PlayerId, high: Price, sellerId: PlayerId, low: Price)

  /** Lexicographic order on integer tuples of equal length. */
  predicate IntsLess(a: seq<int>, b: seq<int>)
    requires |a| == |b|
    decreases |a|
  {
    |a| != 0 && (a[0] < b[0] || (a[0] == b[0] && IntsLess(a[1..], b[1..])))
  }

  lemma {:induction false} IntsLessTransitive(a: seq<int>, b: seq<int>, c: seq<int>)
    requires |a| == |b| == |c|
    requires IntsLess(a, b) && IntsLess(b, c)
    ensures IntsLess(a, c)
    decreases |a|
  {
    if a[0] == b[0] == c[0] {
      IntsLessTransitive(a[1..], b[1..], c[1..]);
    }
  }

  lemma {:induction false} IntsLessStrictTotal(a: seq<int>, b: seq<int>)
    requires |a| == |b|
    ensures a == b || IntsLess(a, b) || IntsLess(b, a)
    ensures !(IntsLess(a, b) && IntsLess(b, a))
    decreases |a|
  {
    if |a| != 0 && a[0] == b[0] {
      IntsLessStrictTotal(a[1..], b[1..]);
      if a[1..] == b[1..] {
        assert a == [a[0]] + a[1..] && b == [b[0]] + b[1..];
      }
    }
  }

  function Tail(t: Trade): seq<int> {
    [t.contractId, t.buyerId, t.high, t.sellerId, t.low]
  }

  /** The derived tuple order on `Trade`: spread, then name, then the rest. */
  predicate TradeLess(a: Trade, b: Trade) {
    a.spread < b.spread
    || (a.spread == b.spread
        && (StrLess(a.contractName, b.contractName)
            || (a.contractName == b.contractName && IntsLess(Tail(a), Tail(b)))))
  }

  lemma TradeLessTransitive(a: Trade, b: Trade, c: Trade)
    requires TradeLess(a, b) && TradeLess(b, c)
    ensures TradeLess(a, c)
  {
    if a.spread == b.spread == c.spread {
      if StrLess(a.contractName, b.contractName) && StrLess(b.contractName, c.contractName) {
        StrLessTransitive(a.contractName, b.contractName, c.contractName);
      } else if IntsLess(Tail(a), Tail(b)) && IntsLess(Tail(b), Tail(c)) {
        IntsLessTransitive(Tail(a), Tail(b), Tail(c));
      }
    }
  }

  /**
   * After `trades.sort(); trades.reverse()` the head is the largest trade:
   * any two different trades are ordered, one way only.
   */
  lemma TradeLessStrictTotal(a: Trade, b: Trade)
    ensures a == b || TradeLess(a, b) || TradeLess(b, a)
    ensures !(TradeLess(a, b) && TradeLess(b, a))
  {
    StrLessTotal(a.contractName, b.contractName);
    if StrLess(a.contractName, b.contractName) {
      StrLessAsymmetric(a.contractName, b.contractName);
    }
    IntsLessStrictTotal(Tail(a), Tail(b));
    if Tail(a) == Tail(b) {
      assert Tail(a)[0] == Tail(b)[0] && Tail(a)[1] == Tail(b)[1] && Tail(a)[2] == Tail(b)[2];
      assert Tail(a)[3] == Tail(b)[3] && Tail(a)[4] == Tail(b)[4];
    }
  }
}
