/**
 * The records of the market: contracts, players with their declared belief
 * ranges and credit limits, and conditional IOUs. Prices are percentages
 * (0 to 100) and amounts are currency units, both `i32` in the source and
 * unbounded integers here.
 */
module Entities {

  type Price = int
  type ContractId = nat
  type PlayerId = nat

  /** The credit limit `Player::new` gives every player. */
  const DefaultCreditLimit: Price := 1000

  datatype Contract = Contract(name: string)

  /** A belief range the market accepts: `0 <= low < high <= 100`. */
  predicate ValidRange(low: Price, high: Price) {
    0 <= low < high <= 100
  }

  /** Every declared range is valid and names one of the first `n` contracts. */
  predicate RangesValid(ranges: map<ContractId, (Price, Price)>, n: nat) {
    forall c :: c in ranges ==> c < n && ValidRange(ranges[c].0, ranges[c].1)
  }

  datatype Player = Player(name: string, ranges: map<ContractId, (Price, Price)>, creditLimit: Price) {

    /** `Player::clear_ranges`: forget every declared range, keep the rest. */
    function ClearRanges(): (p: Player)
      ensures p.ranges == map[]
      ensures p.name == name && p.creditLimit == creditLimit
    {
      this.(ranges := map[])
    }

    /** `Player::set_range`: declare (or re-declare) the range for one contract. */
    function SetRange(c: ContractId, low: Price, high: Price): (p: Player)
      ensures p.ranges.Keys == ranges.Keys + {c} && p.ranges[c] == (low, high)
      ensures forall k :: k in ranges && k != c ==> p.ranges[k] == ranges[k]
      ensures p.name == name && p.creditLimit == creditLimit
    {
      this.(ranges := ranges[c := (low, high)])
    }
  }

  /** `Player::new`: no ranges, the default credit limit. */
  function NewPlayer(name: string): (p: Player)
    ensures p.name == name && p.ranges == map[] && p.creditLimit == 1000
  {
    Player(name, map[], DefaultCreditLimit)
  }

  /**
   * `issuer` owes `amount` to `holder` if contract `contractId` resolves to
   * `condition`.
   */
  datatype Iou = Iou(issuerId: PlayerId, holderId: PlayerId, contractId: ContractId, condition: bool, amount: Price)
}
