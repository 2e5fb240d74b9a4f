/**
 * The C++ implementation in fastauction.cpp.
 *
 * Masks are `std::uint32_t` words, modelled as `nat`s below `Word`; the
 * do-while loop of `merge` relies on unsigned wrap-around, which is written
 * out with `Dec32`. Operations whose behaviour C++ leaves undefined (a shift
 * by 32 or more, an access outside a vector) are excluded by preconditions.
 * The bid argument `b` (a `const int *`) is modelled as the sequence of the entries it may read.
 */
module FastAuction {
  import opened Bits
  import opened AuctionInstance
  import opened Auction
  import opened Splits

  /** `nextSetBit(s, i)`: the lowest set bit of `s` at a position at least `i`, or -1. */
  function NextSetBit(s: nat, i: nat): (r: int)
    requires s < Word && i < 32
    ensures r == -1 || i <= r < 32
    ensures r == -1 <==> NoBitIn(s, i, 32)
    ensures r >= 0 ==> Bit(s, r) && NoBitIn(s, i, r)
  {
    var word := And(s, Shl32(Word - 1, i));
    MaskedWord(s, i);
    if word != 0 then
      var r := Ctz(word);
      assert Bit(s, r) && i <= r < 32;
      r
    else
      NoBitsOfZero(i);
      -1
  }

  /**
   * `revenue(d, b, u)`: the sum of `b[j]` over the set bits `j` of `u`,
   * capped by `d`. Bit 31 must be clear, or the search would shift by 32.
   */
  method Revenue(d: int, b: seq<int>, u: nat) returns (r: int)
    requires u < SignBit && u < Pow2(|b|)
    ensures r == BidderRevenue(d, b, u)
  {
    Pow2SignBit();
    var sum := 0;
    var j := NextSetBit(u, 0);
    ghost var lo: nat := 0;
    while j >= 0
      invariant lo <= |b| && lo <= 31
      invariant j == NextSetBit(u, lo)
      invariant sum == BidSumBelow(b, u, lo)
      decreases |b| - lo
    {
      SetBitBelow(u, |b|, j);
      SetBitBelow(u, 31, j);
      BidSumBelowSkip(b, u, lo, j);
      sum := sum + b[j];
      lo := j + 1;
      j := NextSetBit(u, j + 1);
    }
    forall t: nat | lo <= t < |b|
      ensures !Bit(u, t)
    {
      if t >= 32 {
        BitBelowPow2(u, 31, t);
      }
    }
    BidSumBelowSkip(b, u, lo, |b|);
    r := Min(sum, d);
  }

  /**
   * `generate(S, n, d, b)`: writes the revenue of every mask `1 <= u < n`
   * and leaves every other entry of `S` as it was.
   */
  method Generate(S: array<int>, n: int, d: int, b: seq<int>)
    requires 0 <= n <= S.Length && n <= SignBit && n <= Pow2(|b|)
    modifies S
    ensures S.Length >= 1 ==> S[0] == old(S[0])
    ensures forall v :: n <= v < S.Length ==> S[v] == old(S[v])
    ensures TableIsRevenue(d, b, S[..n])
  {
    if n <= 1 {
      return;
    }
    var u := 1;
    while u < n
      invariant 1 <= u <= n
      invariant S[0] == old(S[0])
      invariant forall v :: u <= v < S.Length ==> S[v] == old(S[v])
      invariant forall v: nat :: 1 <= v < u ==> S[v] == BidderRevenue(d, b, v)
    {
      var x := Revenue(d, b, u);
      S[u] := x;
      u := u + 1;
    }
  }

  /**
   * The body of the merge loop for one mask `u`: starts from `S[u]` and runs
   * the do-while loop from `m = u`, stepping `m = (m - 1) & u` until the
   * wrap-around after 0 brings `m` back to `u`.
   */
  method MergeCell(S: seq<int>, Sp: seq<int>, u: nat) returns (r: int)
    requires u < |S| && u < |Sp| && u < Word
    ensures IsCppSplit(S, Sp, u, r)
  {
    ZeroIsSubmask(u);
    AndNotSelf(u);
    AndNotZero(u);
    r := S[u];
    ghost var best: nat := u;
    var m: nat := u;
    // The first pass of the do-while body, before the loop test.
    NotAnd(m, u);
    var first := S[m] + Sp[And(Not32(m), u)];
    assert first == SplitValue(S, Sp, u, u);
    if first > r {
      r := first;
    }
    m := Step(u, m);
    forall x: nat | IsSubmask(x, u) && (m == u || m < x)
      ensures x == u
    {
      SubmaskBelow(x, u);
      if u == 0 {
        SubmaskOfZero(x);
      }
    }
    while m != u
      invariant IsSubmask(m, u)
      invariant S[u] <= r
      invariant forall x: nat :: IsSubmask(x, u) && (m == u || m < x) ==> SplitValue(S, Sp, u, x) <= r
      invariant r == S[u] || (IsSubmask(best, u) && SplitValue(S, Sp, u, best) == r)
      decreases if m == u then 0 else m + 1
    {
      SubmaskBelow(m, u);
      NotAnd(m, u);
      AndNotIsSubmask(u, m);
      var candidate := S[m] + Sp[And(Not32(m), u)];
      assert candidate == SplitValue(S, Sp, u, m);
      if candidate > r {
        r, best := candidate, m;
      }
      m := Step(u, m);
    }
  }

  /**
   * One step of the do-while loop, `(m - 1) & u` on 32-bit words: from 0 it
   * wraps around to `u`; otherwise it is the next smaller submask of `u`.
   */
  function Step(u: nat, m: nat): (next: nat)
    requires u < Word && IsSubmask(m, u)
    ensures IsSubmask(next, u)
    ensures m == 0 ==> next == u
    ensures m > 0 ==> next < m && forall x: nat :: IsSubmask(x, u) && x < m ==> x <= next
  {
    SubmaskBelow(m, u);
    var next := And(Dec32(m), u);
    if m == 0 then
      assert Dec32(0) == Word - 1;
      AllOnesAnd(u);
      SubmaskAnd(u, u);
      next
    else
      PrevSubmaskBelow(u, m);
      forall x: nat | IsSubmask(x, u) && x < m
        ensures x <= And(m - 1, u)
      {
        PrevSubmask(u, m, x);
      }
      next
  }

  /**
   * `merge(Sr, n, S, Sp)`: writes the merged revenue of every mask
   * `1 <= u < n` into `Sr`, reading only the first `n` entries of `S` and
   * `Sp`, and leaves every other entry of `Sr` as it was.
   */
  method Merge(Sr: array<int>, n: int, S: array<int>, Sp: array<int>)
    requires 0 <= n <= Sr.Length && n <= S.Length && n <= Sp.Length && n <= Word
    requires Sr != S && Sr != Sp
    modifies Sr
    ensures forall v :: 0 <= v < Sr.Length && (v == 0 || n <= v) ==> Sr[v] == old(Sr[v])
    ensures forall u: nat :: 1 <= u < n ==> IsCppSplit(S[..n], Sp[..n], u, Sr[u])
  {
    var u := 1;
    while u < n
      invariant 1 <= u && (u <= n || u == 1)
      invariant forall v :: 0 <= v < Sr.Length && (v == 0 || u <= v) ==> Sr[v] == old(Sr[v])
      invariant forall v: nat :: 1 <= v < u && v < n ==> IsCppSplit(S[..n], Sp[..n], v, Sr[v])
    {
      Sr[u] := MergeCell(S[..n], Sp[..n], u);
      u := u + 1;
    }
  }

  // ---------------------------------------------------------------------
  // solve_revenue

  /** The bids of bidder `n - 1`, read through `b.data() + (n - 1) * stride`, lie inside `b`. */
  predicate Fits(n: nat, k: nat, b: seq<int>, stride: nat)
  {
    n == 0 || (n - 1) * stride + k <= |b|
  }

  /**
   * The instance a flat bid vector describes when bidder `i`'s `k` bids
   * start at offset `i * stride`.
   */
  function RowsInstance(n: nat, k: nat, d: seq<int>, b: seq<int>, stride: nat): (inst: Instance)
    requires n <= |d| && Fits(n, k, b, stride)
    ensures Shaped(inst) && inst.bidders == n && inst.items == k
    ensures forall i :: 0 <= i < n ==> inst.budgets[i] == d[i]
  {
    var rows := seq(n, i requires 0 <= i < n => MulMonotone(i, n - 1, stride); Row(b, stride, k, i));
    assert forall i :: 0 <= i < n ==> |rows[i]| == k;
    Instance(n, k, d[..n], rows)
  }

  /** The `k` bids read through `b.data() + i * stride`. */
  function Row(b: seq<int>, stride: nat, k: nat, i: nat): (row: seq<int>)
    requires i * stride + k <= |b|
    ensures |row| == k
  {
    b[i * stride .. i * stride + k]
  }

  /**
   * The body of `solve_revenue` with the table bound and the row stride as
   * parameters: three zero-initialised buffers of `1 << k` entries, bidder
   * 0's revenues in `S`, every further bidder merged into `Sr` and swapped
   * with `S`; the answer is the entry `bound - 1`.
   */
  method SolveRevenueWith(n: int, k: int, d: seq<int>, b: seq<int>, bound: int, stride: int) returns (r: int)
    requires 1 <= n <= |d| && 0 <= k <= 30 && 1 <= bound <= Pow2(k) && stride >= 0
    requires Fits(n, k, b, stride)
    ensures NonNegativeBudgets(RowsInstance(n, k, d, b, stride)) ==>
      IsBestFor(RowsInstance(n, k, d, b, stride), n, bound - 1, r)
    ensures n == 1 ==> r == if bound == 1 then 0 else BidderRevenue(d[0], b[..k], bound - 1)
  {
    var inst := RowsInstance(n, k, d, b, stride);
    r := SolveTables(inst, bound);
    assert inst.bids[0] == Row(b, stride, k, 0) == b[..k];
  }

  /**
   * The buffers and the loop of `solve_revenue` over the bidders of `inst`,
   * where bidder `i`'s bids are those read through `b.data() + i * stride`.
   */
  method SolveTables(inst: Instance, bound: int) returns (r: int)
    requires Shaped(inst) && inst.bidders >= 1 && inst.items <= 30
    requires 1 <= bound <= Pow2(inst.items)
    ensures NonNegativeBudgets(inst) ==> IsBestFor(inst, inst.bidders, bound - 1, r)
    ensures inst.bidders == 1 ==>
      r == if bound == 1 then 0 else BidderRevenue(inst.budgets[0], inst.bids[0], bound - 1)
  {
    var S, Sp, Sr := FirstTable(inst, bound);
    var table := S[..bound];
    if inst.bidders > 1 {
      table := Rounds(inst, bound, S, Sp, Sr);
    }
    r := table[bound - 1];
    if NonNegativeBudgets(inst) {
      TableEntry(inst, inst.bidders, table, bound - 1);
    }
  }

  /**
   * The three zero-initialised buffers of `1 << k` entries, with bidder 0's
   * revenues for the masks below `bound` in the first.
   */
  method FirstTable(inst: Instance, bound: int) returns (S: array<int>, Sp: array<int>, Sr: array<int>)
    requires Shaped(inst) && inst.bidders >= 1 && inst.items <= 30
    requires 1 <= bound <= Pow2(inst.items)
    ensures fresh(S) && fresh(Sp) && fresh(Sr) && S != Sp && S != Sr && Sp != Sr
    ensures S.Length == Sp.Length == Sr.Length == Pow2(inst.items)
    ensures S[0] == 0 && Sp[0] == 0 && Sr[0] == 0
    ensures TableIsRevenue(inst.budgets[0], inst.bids[0], S[..bound])
    ensures NonNegativeBudgets(inst) ==> TableIsBest(inst, 1, S[..bound])
  {
    var size := Pow2(inst.items);
    Pow2Monotone(inst.items, 31);
    S := Zeros(size);
    Sp := Zeros(size);
    Sr := Zeros(size);
    Pow2SignBit();
    Generate(S, bound, inst.budgets[0], inst.bids[0]);
    if NonNegativeBudgets(inst) {
      FirstTableIsBest(inst, S[..bound]);
    }
  }

  /**
   * The loop of `solve_revenue`: every bidder from 1 on is merged into
   * `Sr`, which is then swapped with `S`. The result is the prefix below
   * `bound` of the last merged table.
   */
  method Rounds(inst: Instance, bound: int, S0: array<int>, Sp: array<int>, Sr0: array<int>) returns (table: seq<int>)
    requires Shaped(inst) && inst.bidders >= 1 && inst.items <= 30
    requires 1 <= bound <= Pow2(inst.items) && S0.Length == Sp.Length == Sr0.Length >= bound
    requires S0 != Sp && S0 != Sr0 && Sp != Sr0
    requires S0[0] == 0 && Sp[0] == 0 && Sr0[0] == 0
    requires NonNegativeBudgets(inst) ==> TableIsBest(inst, 1, S0[..bound])
    modifies S0, Sp, Sr0
    ensures |table| == bound
    ensures NonNegativeBudgets(inst) ==> TableIsBest(inst, inst.bidders, table)
  {
    var S, Sr := S0, Sr0;
    var i := 1;
    while i < inst.bidders
      invariant 1 <= i <= inst.bidders
      invariant (S == S0 && Sr == Sr0) || (S == Sr0 && Sr == S0)
      invariant S[0] == 0 && Sp[0] == 0 && Sr[0] == 0
      invariant NonNegativeBudgets(inst) ==> TableIsBest(inst, i, S[..bound])
    {
      Round(inst, i, S, Sp, Sr, bound);
      S, Sr := Sr, S;
      i := i + 1;
    }
    table := S[..bound];
  }

  /**
   * One iteration of the loop of `solve_revenue`: bidder `i`'s revenues go
   * into `Sp` and are merged with `S` into `Sr`. If `S` was best for `i`
   * bidders on the masks below `bound`, `Sr` is best for `i + 1`.
   */
  method Round(inst: Instance, i: nat, S: array<int>, Sp: array<int>, Sr: array<int>, bound: int)
    requires Shaped(inst) && 1 <= i < inst.bidders && inst.items <= 30
    requires 1 <= bound <= Pow2(inst.items) && S.Length == Sp.Length == Sr.Length >= bound
    requires S != Sp && S != Sr && Sp != Sr
    requires Sp[0] == 0 && Sr[0] == 0
    requires NonNegativeBudgets(inst) ==> TableIsBest(inst, i, S[..bound])
    modifies Sp, Sr
    ensures Sp[0] == 0 && Sr[0] == 0
    ensures NonNegativeBudgets(inst) ==> TableIsBest(inst, i + 1, Sr[..bound])
  {
    Pow2Monotone(inst.items, 31);
    Pow2SignBit();
    Generate(Sp, bound, inst.budgets[i], inst.bids[i]);
    Merge(Sr, bound, S, Sp);
    if NonNegativeBudgets(inst) {
      CppRound(inst, i, S[..bound], Sp[..bound], Sr[..bound]);
    }
  }

  /**
   * `solve_revenue` as written: it passes the number of bidders `n` where
   * the table bound `1 << k` belongs, uses `n` as the stride between the
   * bidders' rows, and returns the entry `n - 1`. What it computes is the
   * best revenue from the items of the mask `n - 1` only, and 0 for a single
   * bidder, whatever the bids.
   */
  method SolveRevenueAsWritten(n: int, k: int, d: seq<int>, b: seq<int>) returns (r: int)
    requires 1 <= n <= |d| && 0 <= k <= 30 && n <= Pow2(k) && Fits(n, k, b, n)
    ensures NonNegativeBudgets(RowsInstance(n, k, d, b, n)) ==>
      IsBestFor(RowsInstance(n, k, d, b, n), n, n - 1, r)
    ensures n == 1 ==> r == 0
  {
    r := SolveRevenueWith(n, k, d, b, n, n);
  }

  /**
   * `solve_revenue` with the table bound `1 << k`, the row stride `k` and
   * the answer read at the mask of all items: the optimal revenue when no
   * budget is negative.
   */
  method SolveRevenue(n: int, k: int, d: seq<int>, b: seq<int>) returns (r: int)
    requires 1 <= n <= |d| && 0 <= k <= 30 && Fits(n, k, b, k)
    ensures NonNegativeBudgets(RowsInstance(n, k, d, b, k)) ==> IsOptimal(RowsInstance(n, k, d, b, k), r)
    ensures n == 1 && k >= 1 ==> r == Min(d[0], Sum(b[..k]))
  {
    assert 0 * k == 0;
    r := SolveRevenueWith(n, k, d, b, Pow2(k), k);
    ghost var inst := RowsInstance(n, k, d, b, k);
    assert FullMask(inst.items) == Pow2(k) - 1;
    if n == 1 && k >= 1 {
      assert Pow2(k) == 2 * Pow2(k - 1);
      assert |b[..k]| == k;
      BidSumFull(b[..k]);
    }
  }

  /**
   * One bidder with budget 5 and bids 1 and 2 on two items: the optimal
   * revenue is 3, yet `solve_revenue` as written returns 0.
   */
  method AsWrittenMissesRevenue() returns (asWritten: int, optimal: int)
    ensures IsOptimal(RowsInstance(1, 2, [5], [1, 2], 2), optimal)
    ensures asWritten == 0 && optimal == 3
  {
    assert Pow2(2) == 4;
    asWritten := SolveRevenueAsWritten(1, 2, [5], [1, 2]);
    optimal := SolveRevenue(1, 2, [5], [1, 2]);
    assert [1, 2][..2] == [1, 2];
    assert Sum([1, 2]) == 3 by {
      assert [1, 2][..1] == [1];
      assert [1][..0] == [];
    }
    assert NonNegativeBudgets(RowsInstance(1, 2, [5], [1, 2], 2));
  }
}
