/**
 * What the solvers compute (the contract of AuctionSolver.kt): the maximum
 * seller revenue over all ways of giving every item to one bidder, where a
 * bidder pays the sum of their bids on the items they receive, capped by
 * their budget.
 *
 * A set of items is a bit mask; an allocation gives bidder `b` the mask
 * `parts[b]`.
 */
module Auction {
  import opened Bits
  import opened AuctionInstance

  /** `min` as the sources use it. */
  function Min(a: int, b: int): int
  {
    if a <= b then a else b
  }

  /** The sum of all entries of `s`. */
  function Sum(s: seq<int>): int
  {
    if |s| == 0 then 0 else Sum(s[..|s| - 1]) + s[|s| - 1]
  }

  /** The sum of `row[j]` over the positions `j < n` whose bit is set in `u`. */
  function BidSumBelow(row: seq<int>, u: nat, n: nat): int
    requires n <= |row|
  {
    if n == 0 then 0
    else BidSumBelow(row, u, n - 1) + (if Bit(u, n - 1) then row[n - 1] else 0)
  }

  /** The sum of a bidder's bids on the items of `u`. */
  function BidSum(row: seq<int>, u: nat): int
  {
    BidSumBelow(row, u, |row|)
  }

  /** What a bidder pays for the items of `u`: their bids, capped by the budget. */
  function BidderRevenue(budget: int, row: seq<int>, u: nat): int
  {
    Min(budget, BidSum(row, u))
  }

  /** The mask of all items. */
  function FullMask(items: nat): nat
  {
    Pow2(items) - 1
  }

  /**
   * `parts` splits the items of `u` among `|parts|` bidders: the last bidder
   * receives some of the items of `u` and the others split the rest.
   */
  ghost predicate IsPartition(parts: seq<nat>, u: nat)
    decreases |parts|
  {
    if |parts| == 0 then u == 0
    else
      var x := parts[|parts| - 1];
      IsSubmask(x, u) && IsPartition(parts[..|parts| - 1], AndNot(u, x))
  }

  /** The seller's revenue when bidder `b` receives the items of `parts[b]`. */
  function Value(inst: Instance, parts: seq<nat>): int
    requires Shaped(inst) && |parts| <= inst.bidders
    decreases |parts|
  {
    if |parts| == 0 then 0
    else
      var b := |parts| - 1;
      Value(inst, parts[..b]) + BidderRevenue(inst.budgets[b], inst.bids[b], parts[b])
  }

  /**
   * `v` is the best revenue obtainable by splitting the items of `u` among
   * the first `count` bidders: no split does better and some split attains it.
   */
  ghost predicate IsBestFor(inst: Instance, count: nat, u: nat, v: int)
    requires Shaped(inst) && count <= inst.bidders
  {
    && (forall parts :: |parts| == count && IsPartition(parts, u) ==> Value(inst, parts) <= v)
    && (exists parts :: |parts| == count && IsPartition(parts, u) && Value(inst, parts) == v)
  }

  /** `r` is the maximum revenue over all allocations of all items to all bidders. */
  ghost predicate IsOptimal(inst: Instance, r: int)
    requires Shaped(inst)
  {
    IsBestFor(inst, inst.bidders, FullMask(inst.items), r)
  }

  /**
   * The dimensions agree: one budget and one row of `items` bids per
   * bidder. Every valid instance is shaped; the C++ solver, which performs
   * no checks, is also applied to shaped instances without items.
   */
  predicate Shaped(inst: Instance)
  {
    && inst.bidders >= 0
    && inst.items >= 0
    && |inst.budgets| == inst.bidders
    && |inst.bids| == inst.bidders
    && forall i :: 0 <= i < |inst.bids| ==> |inst.bids[i]| == inst.items
  }

  /** No budget is negative. */
  predicate NonNegativeBudgets(inst: Instance)
  {
    forall i :: 0 <= i < |inst.budgets| ==> inst.budgets[i] >= 0
  }

  /** No bid is negative. */
  predicate NonNegativeBids(inst: Instance)
  {
    forall i, j :: 0 <= i < |inst.bids| && 0 <= j < |inst.bids[i]| ==> inst.bids[i][j] >= 0
  }

  // ---------------------------------------------------------------------
  // Sums over masks

  lemma {:induction false} BidSumBelowOfZero(row: seq<int>, n: nat)
    requires n <= |row|
    ensures BidSumBelow(row, 0, n) == 0
    decreases n
  {
    if n > 0 {
      BitOfZero(n - 1);
      BidSumBelowOfZero(row, n - 1);
    }
  }

  lemma BidSumOfZero(row: seq<int>)
    ensures BidSum(row, 0) == 0
  {
    BidSumBelowOfZero(row, |row|);
  }

  /** Positions without a set bit contribute nothing to the sum. */
  lemma {:induction false} BidSumBelowSkip(row: seq<int>, u: nat, lo: nat, n: nat)
    requires lo <= n <= |row|
    requires forall j: nat :: lo <= j < n ==> !Bit(u, j)
    ensures BidSumBelow(row, u, n) == BidSumBelow(row, u, lo)
    decreases n
  {
    if lo < n {
      BidSumBelowSkip(row, u, lo, n - 1);
    }
  }

  /** Over the mask of all positions below `n`, the sum is the plain sum. */
  lemma {:induction false} BidSumBelowFull(row: seq<int>, n: nat, k: nat)
    requires k <= n <= |row|
    ensures BidSumBelow(row, Pow2(n) - 1, k) == Sum(row[..k])
    decreases k
  {
    if k > 0 {
      BidSumBelowFull(row, n, k - 1);
      BitComplement(n, 0, k - 1);
      BitOfZero(k - 1);
      assert row[..k][..k - 1] == row[..k - 1];
    }
  }

  lemma BidSumFull(row: seq<int>)
    ensures BidSum(row, FullMask(|row|)) == Sum(row)
  {
    BidSumBelowFull(row, |row|, |row|);
    assert row[..|row|] == row;
  }

  /** Adding item `j` to a mask that lacks it adds the bid on `j`. */
  lemma {:induction false} BidSumBelowAdd(row: seq<int>, u: nat, j: nat, n: nat)
    requires n <= |row| && j < |row| && !Bit(u, j)
    ensures BidSumBelow(row, u + Pow2(j), n) == BidSumBelow(row, u, n) + (if j < n then row[j] else 0)
    decreases n
  {
    if n > 0 {
      BidSumBelowAdd(row, u, j, n - 1);
      BitAddPow2(u, j, n - 1);
    }
  }

  lemma BidSumAdd(row: seq<int>, u: nat, j: nat)
    requires j < |row| && !Bit(u, j)
    ensures BidSum(row, u + Pow2(j)) == BidSum(row, u) + row[j]
  {
    BidSumBelowAdd(row, u, j, |row|);
  }

  /** Replacing one entry changes the sum by the difference. */
  lemma {:induction false} SumUpdate(s: seq<int>, i: nat, v: int)
    requires i < |s|
    ensures Sum(s[i := v]) == Sum(s) - s[i] + v
    decreases |s|
  {
    var last := |s| - 1;
    if i < last {
      SumUpdate(s[..last], i, v);
      assert s[i := v][..last] == s[..last][i := v];
    } else {
      assert s[i := v][..last] == s[..last];
    }
  }

  lemma {:induction false} SumOfZeros(n: nat)
    ensures Sum(seq(n, _ => 0)) == 0
    decreases n
  {
    if n > 0 {
      SumOfZeros(n - 1);
      assert seq(n, _ => 0)[..n - 1] == seq(n - 1, _ => 0);
    }
  }

  // ---------------------------------------------------------------------
  // Partitions

  /** The parts of a partition of `u` are submasks of `u`. */
  lemma {:induction false} PartsAreSubmasks(parts: seq<nat>, u: nat, b: nat)
    requires IsPartition(parts, u) && b < |parts|
    ensures IsSubmask(parts[b], u)
    decreases |parts|
  {
    var last := |parts| - 1;
    if b < last {
      PartsAreSubmasks(parts[..last], AndNot(u, parts[last]), b);
      AndNotIsSubmask(u, parts[last]);
      SubmaskTransitive(parts[b], AndNot(u, parts[last]), u);
    }
  }

  /** The only partition of the empty mask gives everybody nothing. */
  lemma {:induction false} PartitionOfEmpty(parts: seq<nat>, b: nat)
    requires IsPartition(parts, 0) && b < |parts|
    ensures parts[b] == 0
  {
    PartsAreSubmasks(parts, 0, b);
    SubmaskOfZero(parts[b]);
  }

  /** Giving nothing to `count` bidders is a partition of the empty mask. */
  lemma {:induction false} NothingIsPartition(count: nat)
    ensures IsPartition(seq(count, _ => 0), 0)
    decreases count
  {
    if count > 0 {
      var parts: seq<nat> := seq(count, _ => 0);
      assert parts[..count - 1] == seq(count - 1, _ => 0);
      NothingIsPartition(count - 1);
      ZeroIsSubmask(0);
      AndNotSelf(0);
    }
  }

  /** Giving the rest of `u` to one more bidder extends a partition of `m ⊆ u` to one of `u`. */
  lemma ExtendPartition(inst: Instance, w: seq<nat>, m: nat, u: nat) returns (parts: seq<nat>)
    requires Shaped(inst) && |w| < inst.bidders
    requires IsPartition(w, m) && IsSubmask(m, u)
    ensures parts == w + [AndNot(u, m)] && IsPartition(parts, u)
    ensures Value(inst, parts) == Value(inst, w) + BidderRevenue(inst.budgets[|w|], inst.bids[|w|], AndNot(u, m))
  {
    var x := AndNot(u, m);
    AndNotIsSubmask(u, m);
    AndNotTwice(u, m);
    parts := w + [x];
    assert parts[..|w|] == w;
  }

  /**
   * Giving a new item `j` to bidder `i` turns a partition of `u`, which
   * lacks `j`, into a partition of `u` with `j`.
   */
  lemma {:induction false} PartitionAddItem(parts: seq<nat>, u: nat, i: nat, j: nat)
    requires IsPartition(parts, u) && i < |parts| && !Bit(u, j)
    ensures !Bit(parts[i], j)
    ensures IsPartition(parts[i := parts[i] + Pow2(j)], u + Pow2(j))
    decreases |parts|
  {
    var last := |parts| - 1;
    var x, rest := parts[last], parts[..last];
    var grown := parts[i := parts[i] + Pow2(j)];
    if i == last {
      AddBitToBoth(x, u, j);
      assert grown[..last] == rest;
    } else {
      AddBitToMask(x, u, j);
      PartitionAddItem(rest, AndNot(u, x), i, j);
      assert grown[..last] == rest[i := rest[i] + Pow2(j)];
      assert grown[last] == x;
    }
  }

  /** With non-negative budgets, giving nothing to anybody is worth nothing. */
  lemma {:induction false} ValueOfNothing(inst: Instance, parts: seq<nat>)
    requires Shaped(inst) && NonNegativeBudgets(inst) && |parts| <= inst.bidders
    requires forall b :: 0 <= b < |parts| ==> parts[b] == 0
    ensures Value(inst, parts) == 0
    decreases |parts|
  {
    if |parts| > 0 {
      var b := |parts| - 1;
      ValueOfNothing(inst, parts[..b]);
      BidSumOfZero(inst.bids[b]);
    }
  }

  /** With non-negative budgets the best revenue from no items is 0. */
  lemma EmptyMaskIsBest(inst: Instance, count: nat)
    requires Shaped(inst) && NonNegativeBudgets(inst) && count <= inst.bidders
    ensures IsBestFor(inst, count, 0, 0)
  {
    forall parts | |parts| == count && IsPartition(parts, 0)
      ensures Value(inst, parts) == 0
    {
      forall b | 0 <= b < |parts|
        ensures parts[b] == 0
      {
        PartitionOfEmpty(parts, b);
      }
      ValueOfNothing(inst, parts);
    }
    var nothing: seq<nat> := seq(count, _ => 0);
    NothingIsPartition(count);
    ValueOfNothing(inst, nothing);
    assert |nothing| == count && IsPartition(nothing, 0) && Value(inst, nothing) == 0;
  }

  /** With one bidder, the best revenue from `u` is what that bidder pays for all of `u`. */
  lemma SingleBidderIsBest(inst: Instance, u: nat)
    requires Shaped(inst) && inst.bidders >= 1
    ensures IsBestFor(inst, 1, u, BidderRevenue(inst.budgets[0], inst.bids[0], u))
  {
    var v := BidderRevenue(inst.budgets[0], inst.bids[0], u);
    forall parts | |parts| == 1 && IsPartition(parts, u)
      ensures Value(inst, parts) == v
    {
      assert IsSubmask(parts[0], u) && IsPartition(parts[..0], AndNot(u, parts[0]));
      SubmaskCovering(parts[0], u);
    }
    var whole: seq<nat> := [u];
    ZeroIsSubmask(u);
    AndNotSelf(u);
    assert IsSubmask(u, u);
    assert whole[..0] == [];
    assert IsPartition(whole, u);
    assert Value(inst, whole) == v;
  }

  /** The revenue of an allocation is the sum of what each bidder pays. */
  lemma {:induction false} ValueIsSum(inst: Instance, parts: seq<nat>, paid: seq<int>)
    requires Shaped(inst) && |parts| <= inst.bidders && |paid| == |parts|
    requires forall b :: 0 <= b < |parts| ==> paid[b] == BidderRevenue(inst.budgets[b], inst.bids[b], parts[b])
    ensures Value(inst, parts) == Sum(paid)
    decreases |parts|
  {
    if |parts| > 0 {
      var b := |parts| - 1;
      ValueIsSum(inst, parts[..b], paid[..b]);
    }
  }

  /** With non-negative bids and budgets no allocation has negative revenue. */
  lemma {:induction false} ValueNonNegative(inst: Instance, parts: seq<nat>)
    requires Shaped(inst) && NonNegativeBudgets(inst) && NonNegativeBids(inst)
    requires |parts| <= inst.bidders
    ensures Value(inst, parts) >= 0
    decreases |parts|
  {
    if |parts| > 0 {
      var b := |parts| - 1;
      ValueNonNegative(inst, parts[..b]);
      BidSumBelowNonNegative(inst.bids[b], parts[b], |inst.bids[b]|);
    }
  }

  lemma {:induction false} BidSumBelowNonNegative(row: seq<int>, u: nat, n: nat)
    requires n <= |row|
    requires forall j :: 0 <= j < |row| ==> row[j] >= 0
    ensures BidSumBelow(row, u, n) >= 0
    decreases n
  {
    if n > 0 {
      BidSumBelowNonNegative(row, u, n - 1);
    }
  }
}
