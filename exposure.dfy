/**
 * The exposure calculator: per player, the net signed amount of the "If c"
 * IOUs (`exposure`) and of the "Not c" IOUs (`negExposure`) per contract,
 * where an IOU the player issued counts positive and one the player holds
 * counts negative; and the worst-case losses derived from those two maps.
 */
module Exposures {
  import opened Wrappers
  import opened MapFolds
  import opened Entities

  /** `entry(c).and_modify(|total| *total += amount).or_insert(amount)` */
  function AddTo(m: map<ContractId, Price>, c: ContractId, amount: Price): (r: map<ContractId, Price>)
    ensures r.Keys == m.Keys + {c}
    ensures r[c] == Get(m, c) + amount
    ensures forall k :: k in m && k != c ==> r[k] == m[k]
  {
    if c in m then m[c := m[c] + amount] else m[c := amount]
  }

  /** The positive "If" positions on contracts other than `c`. */
  function PositiveOthers(m: map<ContractId, Price>, c: ContractId): (r: map<ContractId, Price>)
    ensures forall k :: k in r <==> k in m && k != c && m[k] > 0
    ensures forall k :: k in r ==> r[k] == m[k]
  {
    map k | k in m && k != c && m[k] > 0 :: m[k]
  }

  /** The two maps of an `Exposure`, as a value. */
  datatype ExposureState = ExposureState(exposure: map<ContractId, Price>, negExposure: map<ContractId, Price>) {

    /** `Exposure::exposure`: the net "If c" position, 0 when there is none. */
    function ExposureOf(c: ContractId): Price {
      Get(exposure, c)
    }

    /** `Exposure::neg_exposure`: the net "Not c" position, 0 when there is none. */
    function NegExposureOf(c: ContractId): Price {
      Get(negExposure, c)
    }

    /** `total_neg_exposure`: every "Not" position, debts and credits alike. */
    function TotalNegExposure(): Price {
      Sum(negExposure)
    }

    /**
     * `total_exposure_to_contract`: what the player owes if `c` resolves true,
     * assuming no other tracked contract does.
     */
    function TotalExposureToContract(c: ContractId): Price {
      ExposureOf(c) + TotalNegExposure() - NegExposureOf(c)
    }

    /**
     * `total_exposure_to_neg`: the "Not" positions that are debts, ignoring
     * the ones that are credits.
     */
    function TotalExposureToNeg(): (r: Price)
      ensures 0 <= r
      ensures TotalNegExposure() <= r
    {
      SumPositiveBounds(negExposure);
      Sum(Positive(negExposure))
    }

    /**
     * `total_exposure_to_contract_neg`: the worst case if `c` resolves false,
     * every "Not" debt plus the largest single "If" debt on another contract.
     */
    function TotalExposureToContractNeg(c: ContractId): Price
    {
      TotalExposureToNeg() + MaxValue(PositiveOthers(exposure, c)).GetOr(0)
    }

    /** `outcome`: the player's gain if `c` resolves true. */
    function Outcome(c: ContractId): (r: Price)
      ensures r == OtherwiseOutcome() - (ExposureOf(c) - NegExposureOf(c))
    {
      -TotalExposureToContract(c)
    }

    /** `otherwise_outcome`: the player's gain if no tracked contract resolves true. */
    function OtherwiseOutcome(): (r: Price)
      ensures -TotalExposureToNeg() <= r
    {
      -TotalNegExposure()
    }
  }

  const NoExposure := ExposureState(map[], map[])

  /** The signed amount an IOU contributes to `pid`'s exposure: issued +, held -. */
  function SignedAmount(pid: PlayerId, iou: Iou): Price {
    if iou.issuerId == pid then iou.amount
    else if iou.holderId == pid then -iou.amount
    else 0
  }

  /** `Exposure::apply_iou` on the snapshot of player `pid`. */
  function Applied(pid: PlayerId, s: ExposureState, iou: Iou): (r: ExposureState)
  {
    if iou.issuerId == pid then
      if iou.condition then s.(exposure := AddTo(s.exposure, iou.contractId, iou.amount))
      else s.(negExposure := AddTo(s.negExposure, iou.contractId, iou.amount))
    else if iou.holderId == pid then
      if iou.condition then s.(exposure := AddTo(s.exposure, iou.contractId, -iou.amount))
      else s.(negExposure := AddTo(s.negExposure, iou.contractId, -iou.amount))
    else s
  }

  /**
   * The worst case if `c` resolves false exceeds the "Not" debts by the
   * largest "If" position on another contract: by no less than any of them,
   * and by exactly one of them unless it exceeds the debts by nothing.
   */
  lemma ContractNegWorstCase(s: ExposureState, c: ContractId)
    ensures var extra := s.TotalExposureToContractNeg(c) - s.TotalExposureToNeg();
            && 0 <= extra
            && (forall k :: k in s.exposure && k != c ==> s.exposure[k] <= extra)
            && (extra == 0 || exists k :: k in s.exposure && k != c && s.exposure[k] == extra)
  {
    var others := PositiveOthers(s.exposure, c);
    var extra := s.TotalExposureToContractNeg(c) - s.TotalExposureToNeg();
    MaxValueIsMax(others);
    if others != map[] {
      var k :| k in others && others[k] == extra;
      assert k in s.exposure && k != c && s.exposure[k] == extra;
    }
  }

  /**
   * An IOU moves only the position of its own contract and condition, by
   * its signed amount for `pid`.
   */
  lemma AppliedPositions(pid: PlayerId, s: ExposureState, iou: Iou, k: ContractId)
    ensures Applied(pid, s, iou).ExposureOf(k)
            == s.ExposureOf(k) + (if k == iou.contractId && iou.condition then SignedAmount(pid, iou) else 0)
    ensures Applied(pid, s, iou).NegExposureOf(k)
            == s.NegExposureOf(k) + (if k == iou.contractId && !iou.condition then SignedAmount(pid, iou) else 0)
  {
  }

  /** `Market::calc_exposure`: `pid`'s exposure replayed from the whole IOU history. */
  function Replay(pid: PlayerId, ious: seq<Iou>): ExposureState
    decreases |ious|
  {
    if ious == [] then NoExposure
    else Applied(pid, Replay(pid, ious[..|ious| - 1]), ious[|ious| - 1])
  }

  /** A snapshot `s` brought up to date by applying `ious` to it one at a time. */
  function ApplyAll(pid: PlayerId, s: ExposureState, ious: seq<Iou>): ExposureState
    decreases |ious|
  {
    if ious == [] then s else ApplyAll(pid, Applied(pid, s, ious[0]), ious[1..])
  }

  /**
   * The sum of the signed amounts of the IOUs of `ious` on contract `c` with
   * condition `condition`: the reference definition of a position.
   */
  function ConditionalTotal(pid: PlayerId, ious: seq<Iou>, c: ContractId, condition: bool): Price
    decreases |ious|
  {
    if ious == [] then 0
    else
      var last := ious[|ious| - 1];
      ConditionalTotal(pid, ious[..|ious| - 1], c, condition)
      + (if last.contractId == c && last.condition == condition then SignedAmount(pid, last) else 0)
  }

  /**
   * The equivalence of the two strategies: a snapshot replayed from a prefix
   * of the history and then updated IOU by IOU equals the full replay.
   */
  lemma {:induction false} ReplayIncremental(pid: PlayerId, done: seq<Iou>, more: seq<Iou>)
    ensures ApplyAll(pid, Replay(pid, done), more) == Replay(pid, done + more)
    decreases |more|
  {
    if more == [] {
      assert done + more == done;
    } else {
      var next := done + [more[0]];
      assert next[..|next| - 1] == done;
      ReplayIncremental(pid, next, more[1..]);
      assert next + more[1..] == done + more;
    }
  }

  /**
   * Replaying the history yields, per contract, the net signed amount of the
   * IOUs on that contract and condition that the player issued or holds.
   */
  lemma {:induction false} ReplayClosedForm(pid: PlayerId, ious: seq<Iou>, c: ContractId)
    ensures Replay(pid, ious).ExposureOf(c) == ConditionalTotal(pid, ious, c, true)
    ensures Replay(pid, ious).NegExposureOf(c) == ConditionalTotal(pid, ious, c, false)
    decreases |ious|
  {
    if ious != [] {
      ReplayClosedForm(pid, ious[..|ious| - 1], c);
      AppliedPositions(pid, Replay(pid, ious[..|ious| - 1]), ious[|ious| - 1], c);
    }
  }

  /**
   * If `c` resolves true, the player owes the "If c" position plus the "Not q"
   * positions of every other contract q.
   */
  lemma ContractExposureCountsOtherNots(s: ExposureState, c: ContractId)
    ensures s.TotalExposureToContract(c) == s.ExposureOf(c) + Sum(s.negExposure - {c})
  {
    if c in s.negExposure {
      SumRemove(s.negExposure, c);
    } else {
      assert s.negExposure - {c} == s.negExposure;
    }
  }

  /**
   * `total_exposure_to_contract` sums every "Not" position, credits included,
   * while `total_exposure_to_neg` keeps only the debts: the first is never
   * above the same formula built from the second.
   */
  lemma ContractExposureNetsCredits(s: ExposureState, c: ContractId)
    ensures s.TotalExposureToContract(c) <= s.ExposureOf(c) + s.TotalExposureToNeg() - s.NegExposureOf(c)
  {
    SumPositiveBounds(s.negExposure);
  }

  /** The two sums differ as soon as one "Not" position is a credit. */
  lemma ContractExposureNetsCreditsStrictly()
    ensures var s := ExposureState(map[], map[0 := 50, 1 := -30]);
            s.TotalExposureToContract(0) == -30 && s.TotalExposureToNeg() == 50
  {
    var s := ExposureState(map[], map[0 := 50, 1 := -30]);
    assert s.negExposure - {0} == map[1 := -30];
    SumRemove(s.negExposure, 0);
    SumRemove(map[1 := -30], 1);
    assert map[1 := -30] - {1} == map[];
    assert Positive(s.negExposure) == map[0 := 50];
    SumRemove(map[0 := 50], 0);
    assert map[0 := 50] - {0} == map[];
  }

  /** `Exposure`: one player's positions, updated in place IOU by IOU. */
  class Exposure {
    const playerId: PlayerId
    var exposure: map<ContractId, Price>
    var negExposure: map<ContractId, Price>

    function State(): ExposureState
      reads this
    {
      ExposureState(exposure, negExposure)
    }

    /** `Exposure::new` */
    constructor (playerId: PlayerId)
      ensures this.playerId == playerId && State() == NoExposure
    {
      this.playerId := playerId;
      exposure := map[];
      negExposure := map[];
    }

    /** `Exposure::add_exposure` */
    method AddExposure(c: ContractId, amount: Price)
      modifies this
      ensures exposure == AddTo(old(exposure), c, amount) && negExposure == old(negExposure)
    {
      if c in exposure {
        exposure := exposure[c := exposure[c] + amount];
      } else {
        exposure := exposure[c := amount];
      }
    }

    /** `Exposure::add_neg_exposure` */
    method AddNegExposure(c: ContractId, amount: Price)
      modifies this
      ensures negExposure == AddTo(old(negExposure), c, amount) && exposure == old(exposure)
    {
      if c in negExposure {
        negExposure := negExposure[c := negExposure[c] + amount];
      } else {
        negExposure := negExposure[c := amount];
      }
    }

    /**
     * `Exposure::apply_iou`: an IOU this player issued adds its amount to the
     * map of its condition, one it holds subtracts it, any other is ignored.
     */
    method ApplyIou(iou: Iou)
      modifies this
      ensures State() == Applied(playerId, old(State()), iou)
    {
      if iou.issuerId == playerId {
        if iou.condition {
          AddExposure(iou.contractId, iou.amount);
        } else {
          AddNegExposure(iou.contractId, iou.amount);
        }
      } else if iou.holderId == playerId {
        if iou.condition {
          AddExposure(iou.contractId, -iou.amount);
        } else {
          AddNegExposure(iou.contractId, -iou.amount);
        }
      }
    }
  }
}
