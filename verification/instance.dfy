/**
 * The auction instance of AuctionInstance.kt: a validated description of
 * `bidders` bidders with one budget each and one bid per item.
 */
module AuctionInstance {
  import opened Outcomes

  /** `bids[i][j]` is the bid of bidder `i` on item `j`. */
  datatype Instance = Instance(bidders: int, items: int, budgets: seq<int>, bids: seq<seq<int>>)

  /** The checks of the constructor, in the order it performs them. */
  datatype Violation = NoBidder | BudgetCount | BidCount | NoItem | RowLength

  /** The message the constructor reports for each failed check. */
  function Message(v: Violation): string
  {
    match v
    case NoBidder => "Auction must have at least one bidder"
    case BudgetCount => "Not enough budget constraints specified"
    case BidCount => "Not enough bids specified"
    case NoItem => "Auction must have at least one item"
    case RowLength => "Not enough bids specified for one user"
  }

  /** Position of a check in the constructor's sequence of checks. */
  function Rank(v: Violation): nat
  {
    match v
    case NoBidder => 0
    case BudgetCount => 1
    case BidCount => 2
    case NoItem => 3
    case RowLength => 4
  }

  /** The check at position `c` holds of the constructor's arguments. */
  predicate Holds(c: nat, bidders: int, items: int, budgets: seq<int>, bids: seq<seq<int>>)
  {
    match c
    case 0 => bidders > 0
    case 1 => |budgets| == bidders
    case 2 => |bids| == bidders
    case 3 => items > 0
    case _ => forall i :: 0 <= i < |bids| ==> |bids[i]| == items
  }

  /** Every check holds: the dimensions of the instance agree. */
  predicate Valid(inst: Instance)
  {
    && inst.bidders > 0
    && inst.items > 0
    && |inst.budgets| == inst.bidders
    && |inst.bids| == inst.bidders
    && forall i :: 0 <= i < |inst.bids| ==> |inst.bids[i]| == inst.items
  }

  /**
   * The constructor: succeeds exactly when all five checks hold and
   * otherwise reports the first check that fails. Signs of budgets and
   * bids are not checked.
   */
  function Create(bidders: int, items: int, budgets: seq<int>, bids: seq<seq<int>>): (r: Result<Instance, Violation>)
    ensures r.Ok? <==> forall c: nat :: c < 5 ==> Holds(c, bidders, items, budgets, bids)
    ensures r.Ok? ==> r.value == Instance(bidders, items, budgets, bids) && Valid(r.value)
    ensures r.Err? ==> !Holds(Rank(r.error), bidders, items, budgets, bids)
    ensures r.Err? ==> forall c: nat :: c < Rank(r.error) ==> Holds(c, bidders, items, budgets, bids)
  {
    if bidders <= 0 then
      assert !Holds(0, bidders, items, budgets, bids);
      Err(NoBidder)
    else if |budgets| != bidders then
      assert !Holds(1, bidders, items, budgets, bids);
      Err(BudgetCount)
    else if |bids| != bidders then
      assert !Holds(2, bidders, items, budgets, bids);
      Err(BidCount)
    else if items <= 0 then
      assert !Holds(3, bidders, items, budgets, bids);
      Err(NoItem)
    else if exists i :: 0 <= i < |bids| && |bids[i]| != items then
      assert !Holds(4, bidders, items, budgets, bids);
      Err(RowLength)
    else
      Ok(Instance(bidders, items, budgets, bids))
  }

  /** The constructor accepts every valid instance unchanged. */
  lemma ValidIsCreated(inst: Instance)
    requires Valid(inst)
    ensures Create(inst.bidders, inst.items, inst.budgets, inst.bids) == Ok(inst)
  {
  }

  /**
   * `equals`: `other` is `None` for `null` and for objects of another
   * class. Equal exactly when all four fields agree element-wise.
   */
  function Equals(self: Instance, other: Option<Instance>): (r: bool)
    ensures r <==> other == Some(self)
  {
    && other.Some?
    && self.bidders == other.value.bidders
    && self.items == other.value.items
    && self.budgets == other.value.budgets
    && self.bids == other.value.bids
  }

  /** Equality of instances is reflexive and symmetric. */
  lemma EqualsSymmetric(a: Instance, b: Instance)
    ensures Equals(a, Some(a))
    ensures Equals(a, Some(b)) == Equals(b, Some(a))
  {
  }
}
