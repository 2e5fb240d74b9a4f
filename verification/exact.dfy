/**
 * The exact solver of AuctionSolverExact.kt.
 *
 * Kotlin's `Int` masks are 32-bit two's complement words; every mask the
 * solver forms lies below `2^items <= 2^30`, so it is modelled as the `nat`
 * with the same bits. Sums are mathematical integers (no 32-bit overflow).
 */
module Exact {
  import opened Bits
  import opened AuctionInstance
  import opened Auction
  import opened Splits

  /** The all-ones word `WORD_MASK` (`-0x1`). */
  const WordMask: nat := Word - 1

  /**
   * `nextSetBit(s, i)`: the lowest set bit of `s` at a position at least
   * `i`, or -1. Kotlin's `shl` uses only the low five bits of the shift
   * distance, so the search starts at `i % 32`.
   */
  function NextSetBit(s: nat, i: nat): (r: int)
    requires s < Word
    ensures r == -1 || i % 32 <= r < 32
    ensures r == -1 <==> NoBitIn(s, i % 32, 32)
    ensures r >= 0 ==> Bit(s, r) && NoBitIn(s, i % 32, r)
  {
    var k := i % 32;
    var word := And(s, Shl32(WordMask, k));
    MaskedWord(s, k);
    HighWordMask(k, 0);
    if word != 0 then
      var r := Ctz(word);
      assert Bit(s, r) && k <= r < 32;
      r
    else
      NoBitsOfZero(k);
      -1
  }

  /**
   * `revenue(budget, bids, alloc)`: sums the bids on the set bits of
   * `alloc`, visited in increasing order by `nextSetBit`, and caps the sum
   * by the budget.
   */
  method Revenue(budget: int, bids: seq<int>, alloc: nat) returns (r: int)
    requires |bids| <= 31 && alloc < Pow2(|bids|)
    ensures r == BidderRevenue(budget, bids, alloc)
  {
    var sum := 0;
    ghost var lo: nat := 0;
    NextBid(bids, alloc, lo);
    var j := NextSetBit(alloc, 0);
    while j >= 0
      invariant lo <= |bids|
      invariant j == NextSetBit(alloc, lo)
      invariant sum == BidSumBelow(bids, alloc, lo)
      invariant j >= 0 ==> lo <= j < |bids| && BidSumBelow(bids, alloc, j + 1) == sum + bids[j]
      invariant j < 0 ==> BidSum(bids, alloc) == sum
      decreases |bids| - lo
    {
      sum := sum + bids[j];
      lo := j + 1;
      NextBid(bids, alloc, lo);
      j := NextSetBit(alloc, j + 1);
    }
    r := Min(sum, budget);
  }

  /**
   * What one call of `nextSetBit` from position `lo` contributes: the next
   * set bit `j` lies below `|bids|` and adds `bids[j]` to the sum; if there
   * is none, the sum so far is the whole sum.
   */
  lemma NextBid(bids: seq<int>, alloc: nat, lo: nat)
    requires |bids| <= 31 && alloc < Pow2(|bids|) && lo <= |bids|
    ensures alloc < Word
    ensures NextSetBit(alloc, lo) >= 0 ==>
      var j := NextSetBit(alloc, lo);
      lo <= j < |bids| && BidSumBelow(bids, alloc, j + 1) == BidSumBelow(bids, alloc, lo) + bids[j]
    ensures NextSetBit(alloc, lo) < 0 ==> BidSum(bids, alloc) == BidSumBelow(bids, alloc, lo)
  {
    Pow2Monotone(|bids|, 31);
    Pow2SignBit();
    var j := NextSetBit(alloc, lo);
    assert lo % 32 == lo;
    if j >= 0 {
      if j >= |bids| {
        BitBelowPow2(alloc, |bids|, j);
        assert false;
      }
      BidSumBelowSkip(bids, alloc, lo, j);
    } else {
      BidSumBelowSkip(bids, alloc, lo, |bids|);
    }
  }

  /**
   * `generate(S, budget, bids)`: fills every entry of `S` but the first with
   * the bidder's revenue for that mask; `S[0]` is never written.
   */
  method Generate(S: array<int>, budget: int, bids: seq<int>)
    requires |bids| <= 31 && S.Length <= Pow2(|bids|)
    modifies S
    ensures S.Length >= 1 ==> S[0] == old(S[0])
    ensures TableIsRevenue(budget, bids, S[..])
  {
    var u := 1;
    while u < S.Length
      invariant 1 <= u <= S.Length || S.Length == 0
      invariant S.Length >= 1 ==> S[0] == old(S[0])
      invariant forall v: nat :: 1 <= v < u && v < S.Length ==> S[v] == BidderRevenue(budget, bids, v)
    {
      S[u] := Revenue(budget, bids, u);
      u := u + 1;
    }
  }

  /**
   * The body of the merge loop for one mask `u`: starts from the larger of
   * `S[u]` and `Sp[u]` and walks the submasks `(u - 1) & u, ...` down to 0.
   */
  method MergeCell(S: seq<int>, Sp: seq<int>, u: nat) returns (r: int)
    requires 1 <= u < |S| && u < |Sp| && u < Word
    ensures IsKotlinSplit(S, Sp, u, r)
  {
    r := if S[u] >= Sp[u] then S[u] else Sp[u];
    ghost var best: nat := 0;
    StepDown(u, u);
    var m: nat := And(u - 1, u);
    while m != 0
      invariant IsSubmask(m, u) && m < u
      invariant S[u] <= r && Sp[u] <= r
      invariant forall x: nat :: IsSubmask(x, u) && m < x < u ==> SplitValue(S, Sp, u, x) <= r
      invariant r == S[u] || r == Sp[u] || (IsSubmask(best, u) && 0 < best < u && SplitValue(S, Sp, u, best) == r)
      decreases m
    {
      NotAnd(m, u);
      AndNotIsSubmask(u, m);
      var candidate := S[m] + Sp[And(Not32(m), u)];
      assert candidate == SplitValue(S, Sp, u, m);
      if candidate > r {
        r, best := candidate, m;
      }
      StepDown(u, m);
      m := And(m - 1, u);
    }
    if r != S[u] && r != Sp[u] {
      assert IsSubmask(best, u) && 0 < best < u && SplitValue(S, Sp, u, best) == r;
    }
  }

  /**
   * One step of the submask walk: `(m - 1) & u` is the next smaller
   * submask of `u`, with no submask strictly in between.
   */
  lemma StepDown(u: nat, m: nat)
    requires IsSubmask(m, u) && m > 0
    ensures IsSubmask(And(m - 1, u), u) && And(m - 1, u) < m
    ensures forall x: nat :: IsSubmask(x, u) && x < m ==> x <= And(m - 1, u)
  {
    PrevSubmaskBelow(u, m);
    forall x: nat | IsSubmask(x, u) && x < m
      ensures x <= And(m - 1, u)
    {
      PrevSubmask(u, m, x);
    }
  }

  /**
   * `merge(Sr, S, Sp)`: writes the merged revenue of every mask but the
   * first into `Sr`, reading only `S` and `Sp`.
   */
  method Merge(Sr: array<int>, S: array<int>, Sp: array<int>)
    requires Sr.Length == S.Length == Sp.Length <= Word
    requires Sr != S && Sr != Sp
    modifies Sr
    ensures S.Length >= 1 ==> Sr[0] == old(Sr[0])
    ensures forall u: nat :: 1 <= u < Sr.Length ==> IsKotlinSplit(S[..], Sp[..], u, Sr[u])
  {
    var u := 1;
    while u < S.Length
      invariant 1 <= u <= S.Length || S.Length == 0
      invariant S.Length >= 1 ==> Sr[0] == old(Sr[0])
      invariant forall v: nat :: 1 <= v < u && v < Sr.Length ==> IsKotlinSplit(S[..], Sp[..], v, Sr[v])
    {
      Sr[u] := MergeCell(S[..], Sp[..], u);
      u := u + 1;
    }
  }

  /**
   * `solve`: three zero-initialised buffers of `2^items` entries; bidder 0's
   * revenues go into `S`, then every further bidder's revenues are merged
   * into `Sr`, which is swapped with `S`. The answer is the entry of the
   * mask of all items.
   *
   * With non-negative budgets the answer is the optimal revenue; with a
   * single bidder it is that bidder's capped total bid whatever the budget.
   */
  method Solve(inst: Instance) returns (r: int)
    requires Valid(inst) && inst.items <= 30
    ensures NonNegativeBudgets(inst) ==> IsOptimal(inst, r)
    ensures inst.bidders == 1 ==> r == Min(inst.budgets[0], Sum(inst.bids[0]))
  {
    var S, Sp, Sr := FirstTable(inst);
    var table := S[..];
    if inst.bidders > 1 {
      table := Rounds(inst, S, Sp, Sr);
    }
    r := table[|table| - 1];
    if NonNegativeBudgets(inst) {
      TableEntry(inst, inst.bidders, table, |table| - 1);
    }
    if inst.bidders == 1 {
      BidSumFull(inst.bids[0]);
    }
  }

  /** The three zero-initialised buffers, with bidder 0's revenues in the first. */
  method FirstTable(inst: Instance) returns (S: array<int>, Sp: array<int>, Sr: array<int>)
    requires Valid(inst) && inst.items <= 30
    ensures fresh(S) && fresh(Sp) && fresh(Sr) && S != Sp && S != Sr && Sp != Sr
    ensures S.Length == Sp.Length == Sr.Length == Pow2(inst.items)
    ensures S[0] == 0 && Sp[0] == 0 && Sr[0] == 0
    ensures TableIsRevenue(inst.budgets[0], inst.bids[0], S[..])
    ensures NonNegativeBudgets(inst) ==> TableIsBest(inst, 1, S[..])
  {
    var size := Pow2(inst.items);
    Pow2Monotone(inst.items, 31);
    Pow2SignBit();
    S := Zeros(size);
    Sp := Zeros(size);
    Sr := Zeros(size);
    Generate(S, inst.budgets[0], inst.bids[0]);
    if NonNegativeBudgets(inst) {
      FirstTableIsBest(inst, S[..]);
    }
  }

  /**
   * The loop of `solve`: every bidder from 1 on is merged into `Sr`, which
   * is then swapped with `S`. The result is the last merged table.
   */
  method Rounds(inst: Instance, S0: array<int>, Sp: array<int>, Sr0: array<int>) returns (table: seq<int>)
    requires Valid(inst) && inst.items <= 30
    requires S0.Length == Sp.Length == Sr0.Length == Pow2(inst.items)
    requires S0 != Sp && S0 != Sr0 && Sp != Sr0
    requires S0[0] == 0 && Sp[0] == 0 && Sr0[0] == 0
    requires NonNegativeBudgets(inst) ==> TableIsBest(inst, 1, S0[..])
    modifies S0, Sp, Sr0
    ensures |table| == Pow2(inst.items)
    ensures NonNegativeBudgets(inst) ==> TableIsBest(inst, inst.bidders, table)
  {
    var S, Sr := S0, Sr0;
    var i := 1;
    while i < inst.bidders
      invariant 1 <= i <= inst.bidders
      invariant (S == S0 && Sr == Sr0) || (S == Sr0 && Sr == S0)
      invariant S[0] == 0 && Sp[0] == 0 && Sr[0] == 0
      invariant NonNegativeBudgets(inst) ==> TableIsBest(inst, i, S[..])
    {
      Round(inst, i, S, Sp, Sr);
      S, Sr := Sr, S;
      i := i + 1;
    }
    table := S[..];
  }

  /**
   * One iteration of the loop of `solve`: bidder `i`'s revenues go into
   * `Sp` and are merged with `S` into `Sr`. If `S` was best for `i`
   * bidders, `Sr` is best for `i + 1`.
   */
  method Round(inst: Instance, i: nat, S: array<int>, Sp: array<int>, Sr: array<int>)
    requires Valid(inst) && 1 <= i < inst.bidders && inst.items <= 30
    requires S.Length == Sp.Length == Sr.Length == Pow2(inst.items)
    requires S != Sp && S != Sr && Sp != Sr
    requires S[0] == 0 && Sp[0] == 0 && Sr[0] == 0
    requires NonNegativeBudgets(inst) ==> TableIsBest(inst, i, S[..])
    modifies Sp, Sr
    ensures Sp[0] == 0 && Sr[0] == 0
    ensures NonNegativeBudgets(inst) ==> TableIsBest(inst, i + 1, Sr[..])
  {
    Pow2Monotone(inst.items, 31);
    Pow2SignBit();
    Generate(Sp, inst.budgets[i], inst.bids[i]);
    Merge(Sr, S, Sp);
    if NonNegativeBudgets(inst) {
      KotlinRound(inst, i, S[..], Sp[..], Sr[..]);
    }
  }
}
