/**
 * The approximate solver of AuctionSolverDPA.kt, as the code is written.
 *
 * A tuple is an `IntArray(items + 1)`. `generate` and `purge` use slot
 * `bidders` as the running total and the slots below it as the bidders'
 * revenues; the outer loop of `solve` runs over `j < bidders` and hands out
 * item `j`; `findResult` reads slot `items`. The solver therefore stays in
 * bounds only when `bidders <= items`, and it reads the total only when
 * `bidders == items`.
 *
 * `inInterval` divides an `Int` by the floating-point interval length
 * `max(budgets) * epsilon / bidders`; it is the parameter `same` here.
 */
module Dpa {
  import opened Bits
  import opened Outcomes
  import opened AuctionInstance
  import opened Auction

  type Tuple = seq<int>

  /** The exceptions the solver can raise. */
  datatype Failure =
    | ArrayIndexOutOfBounds  // an `IntArray` or a bid row read past its end
    | IndexOutOfBounds       // the tuple list read past its end

  /** The all-zero tuple `IntArray(items + 1)` the solver starts from. */
  function Zero(inst: Instance): Tuple
    requires Valid(inst)
  {
    seq(inst.items + 1, _ => 0)
  }

  // ---------------------------------------------------------------------
  // generate

  /** The number of entries in `m` rows of `n`, counted row by row. */
  function Times(m: nat, n: nat): nat
  {
    if m == 0 then 0 else Times(m - 1, n) + n
  }

  lemma {:induction false} TimesIsProduct(m: nat, n: nat)
    ensures Times(m, n) == m * n
  {
    if m > 0 {
      TimesIsProduct(m - 1, n);
    }
  }

  lemma {:induction false} TimesMonotone(a: nat, b: nat, n: nat)
    requires a <= b
    ensures Times(a, n) <= Times(b, n)
    decreases b
  {
    if a < b {
      TimesMonotone(a, b - 1, n);
    }
  }

  /**
   * The clone of `s` with item `j` given to bidder `i`: slot `i` grows by
   * the bid, capped by the budget, and the total slot `bidders` grows by
   * the same amount. Nothing else changes, and `s` itself is left alone.
   */
  function Child(inst: Instance, s: Tuple, i: nat, j: nat): (c: Tuple)
    requires Valid(inst) && i < inst.bidders <= inst.items && j < inst.items
    requires |s| == inst.items + 1
    ensures |c| == |s|
    ensures c[i] == Min(inst.budgets[i], s[i] + inst.bids[i][j])
  {
    var n := inst.bidders;
    var v := Min(inst.budgets[i], s[i] + inst.bids[i][j]);
    s[n := s[n] + (v - s[i])][i := v]
  }

  /** The total slot of a child grows by what bidder `i`'s slot grows by, and no other slot changes. */
  lemma ChildSlots(inst: Instance, s: Tuple, i: nat, j: nat)
    requires Valid(inst) && i < inst.bidders <= inst.items && j < inst.items
    requires |s| == inst.items + 1
    ensures Child(inst, s, i, j)[inst.bidders] - s[inst.bidders] == Child(inst, s, i, j)[i] - s[i]
    ensures forall t :: 0 <= t < |s| && t != i && t != inst.bidders ==> Child(inst, s, i, j)[t] == s[t]
  {
  }

  /** The children of `s` for bidders `0` to `m - 1`, in bidder order. */
  function Children(inst: Instance, s: Tuple, j: nat, m: nat): (r: seq<Tuple>)
    requires Valid(inst) && m <= inst.bidders <= inst.items && j < inst.items
    requires |s| == inst.items + 1
    ensures |r| == m
    ensures forall c :: c in r ==> |c| == inst.items + 1
  {
    if m == 0 then [] else Children(inst, s, j, m - 1) + [Child(inst, s, m - 1, j)]
  }

  /** The children of every tuple of `S`, parent by parent, bidder by bidder. */
  function Expand(inst: Instance, S: seq<Tuple>, j: nat): (r: seq<Tuple>)
    requires Valid(inst) && inst.bidders <= inst.items && j < inst.items
    requires forall t :: t in S ==> |t| == inst.items + 1
    ensures |r| == Times(|S|, inst.bidders)
    ensures forall t :: t in r ==> |t| == inst.items + 1
    ensures AllBalanced(inst, S) ==> AllBalanced(inst, r)
    ensures NonNegativeBids(inst) && AllRealizable(inst, j, S) ==> AllRealizable(inst, j + 1, r)
    decreases |S|
  {
    if |S| == 0 then []
    else
      var last := |S| - 1;
      var front := Expand(inst, S[..last], j);
      var children := Children(inst, S[last], j, inst.bidders);
      ChildrenKeep(inst, S[last], j);
      ListsJoin(inst, j, S[..last], [S[last]], front, children);
      front + children
  }

  /**
   * `generate(a, S, j)`: every tuple of `S` is replaced by its `bidders`
   * children. The first child reads `b[0][j]` and slot `bidders`, so a
   * non-empty `S` fails unless `j < items` and `bidders <= items`.
   */
  function Generate(inst: Instance, S: seq<Tuple>, j: nat): (r: Result<seq<Tuple>, Failure>)
    requires Valid(inst) && forall t :: t in S ==> |t| == inst.items + 1
    ensures r.Ok? <==> |S| == 0 || (j < inst.items && inst.bidders <= inst.items)
    ensures r.Err? ==> r.error == ArrayIndexOutOfBounds
    ensures r.Ok? ==> |r.value| == Times(|S|, inst.bidders)
    ensures r.Ok? ==> forall t :: t in r.value ==> |t| == inst.items + 1
    ensures r.Ok? && inst.bidders <= inst.items && AllBalanced(inst, S) ==> AllBalanced(inst, r.value)
    ensures r.Ok? && inst.bidders <= inst.items && NonNegativeBids(inst) && AllRealizable(inst, j, S) ==>
      AllRealizable(inst, j + 1, r.value)
  {
    if |S| == 0 then Ok([])
    else if j >= inst.items || inst.bidders > inst.items then Err(ArrayIndexOutOfBounds)
    else Ok(Expand(inst, S, j))
  }

  /** The child for bidder `i` sits at position `i`. */
  lemma {:induction false} ChildrenAt(inst: Instance, s: Tuple, j: nat, m: nat, i: nat)
    requires Valid(inst) && m <= inst.bidders <= inst.items && j < inst.items
    requires |s| == inst.items + 1 && i < m
    ensures Children(inst, s, j, m)[i] == Child(inst, s, i, j)
  {
    if i < m - 1 {
      ChildrenAt(inst, s, j, m - 1, i);
    }
  }

  // ---------------------------------------------------------------------
  // purge

  /** The order-preserving subsequence relation: `a` is `b` with some entries dropped. */
  predicate IsSubsequence(a: seq<Tuple>, b: seq<Tuple>)
    decreases |b|
  {
    if |a| == 0 then true
    else if |b| == 0 then false
    else
      || (a[|a| - 1] == b[|b| - 1] && IsSubsequence(a[..|a| - 1], b[..|b| - 1]))
      || IsSubsequence(a, b[..|b| - 1])
  }

  lemma {:induction false} SubsequenceMembers(a: seq<Tuple>, b: seq<Tuple>)
    requires IsSubsequence(a, b)
    ensures forall t :: t in a ==> t in b
    decreases |b|
  {
    if |a| > 0 {
      var la, lb := |a| - 1, |b| - 1;
      if a[la] == b[lb] && IsSubsequence(a[..la], b[..lb]) {
        SubsequenceMembers(a[..la], b[..lb]);
        assert a == a[..la] + [a[la]];
      } else {
        SubsequenceMembers(a, b[..lb]);
      }
    }
  }

  /**
   * `purge` marks `S[1]` when this holds of `S[0]` and `S[1]`: `S[1]` is
   * unmarked, its total is at most `S[0]`'s, and the two are in the same
   * interval.
   */
  predicate Dominates(n: nat, same: (Tuple, Tuple) -> bool, s: Tuple, t: Tuple)
    requires n < |s| && n < |t|
  {
    t[n] >= 0 && s[n] >= t[n] && same(s, t)
  }

  /**
   * The inner loop of `purge` from step `u`: `v` stays at 1, so every one
   * of its `|S|` steps compares `S[0]`, whose total is `tn`, with `S[1]`.
   * Whatever the number of steps left, only `S[1]` can be marked, and it
   * is marked exactly when `S[0]` dominates it.
   */
  function MarkLoop(n: nat, same: (Tuple, Tuple) -> bool, S: seq<Tuple>, tn: int, u: nat): (M: seq<Tuple>)
    requires 2 <= |S| && u <= |S|
    requires forall t :: t in S ==> n < |t|
    requires tn == S[0][n]
    ensures M == if u < |S| && Dominates(n, same, S[0], S[1]) then S[1 := S[1][n := -1]] else S
    decreases |S| - u
  {
    if u == |S| then S
    else
      var sp := S[1];
      if sp[n] < 0 || tn < sp[n] then MarkLoop(n, same, S, tn, u + 1)
      else if same(S[0], sp) then MarkLoop(n, same, S[1 := sp[n := -1]], tn, u + 1)
      else MarkLoop(n, same, S, tn, u + 1)
  }

  /** `S.removeIf { s -> s[n] < 0 }`: the tuples whose slot `n` is not negative, in order. */
  function Survivors(n: nat, S: seq<Tuple>): (r: seq<Tuple>)
    requires forall t :: t in S ==> n < |t|
    ensures IsSubsequence(r, S)
    ensures forall t :: t in r <==> t in S && t[n] >= 0
    ensures forall t :: multiset(r)[t] == if n < |t| && t[n] >= 0 then multiset(S)[t] else 0
    decreases |S|
  {
    if |S| == 0 then []
    else
      var last := |S| - 1;
      var front := Survivors(n, S[..last]);
      assert S == S[..last] + [S[last]];
      if S[last][n] >= 0 then
        var r := front + [S[last]];
        assert r[..|r| - 1] == front;
        r
      else
        front
  }

  /** Filtering a marked copy of `S`, whose changed entries are negative, keeps a subsequence of `S`. */
  lemma {:induction false} SurvivorsOfMarked(n: nat, S: seq<Tuple>, M: seq<Tuple>)
    requires |M| == |S| && forall t :: t in M ==> n < |t|
    requires forall p :: 0 <= p < |S| ==> M[p] == S[p] || M[p][n] < 0
    ensures IsSubsequence(Survivors(n, M), S)
    decreases |S|
  {
    if |S| > 0 {
      var last := |S| - 1;
      var S', M' := S[..last], M[..last];
      assert forall p :: 0 <= p < last ==> M'[p] == M[p] && S'[p] == S[p];
      SurvivorsOfMarked(n, S', M');
      var front := Survivors(n, M');
      if M[last][n] >= 0 {
        var r := front + [M[last]];
        assert r[..|r| - 1] == front;
        assert Survivors(n, M) == r;
      } else {
        assert Survivors(n, M) == front;
      }
    }
  }

  /**
   * `purge(a, S, intervalLength)`: fails on a single tuple, which has no
   * `S[1]`; otherwise marks `S[1]` if `S[0]` dominates it and drops every
   * tuple whose total slot `bidders` is negative.
   */
  function Purge(inst: Instance, S: seq<Tuple>, same: (Tuple, Tuple) -> bool): (r: Result<seq<Tuple>, Failure>)
    requires Valid(inst) && forall t :: t in S ==> inst.bidders < |t|
    ensures r.Ok? <==> |S| != 1
    ensures r.Err? ==> r.error == IndexOutOfBounds
    ensures r.Ok? ==> IsSubsequence(r.value, S)
    ensures r.Ok? ==> forall t :: t in r.value ==> t in S && t[inst.bidders] >= 0
    ensures r.Ok? ==> forall p :: 0 <= p < |S| && S[p] !in r.value ==>
      S[p][inst.bidders] < 0 || (p == 1 && Dominates(inst.bidders, same, S[0], S[1]) && S[0] in r.value)
    ensures r.Ok? ==> forall t :: multiset(r.value)[t] == Kept(inst.bidders, same, S, t)
  {
    var n := inst.bidders;
    if |S| == 0 then Ok([])
    else if |S| == 1 then Err(IndexOutOfBounds)
    else
      var M := MarkLoop(n, same, S, S[0][n], 0);
      SurvivorsOfMarked(n, S, M);
      SubsequenceMembers(Survivors(n, M), S);
      MarkedCounts(n, same, S);
      Ok(Survivors(n, M))
  }

  /**
   * How many copies of `t` purging `S` keeps: every copy with a
   * non-negative total, less the copy in `S[1]` when `S[0]` dominates it.
   */
  function Kept(n: nat, same: (Tuple, Tuple) -> bool, S: seq<Tuple>, t: Tuple): int
    requires forall u :: u in S ==> n < |u|
  {
    (if n < |t| && t[n] >= 0 then multiset(S)[t] else 0)
    - (if |S| >= 2 && t == S[1] && Dominates(n, same, S[0], S[1]) then 1 else 0)
  }

  /** Marking `S[1]` removes exactly its copy from the tuples that survive. */
  lemma MarkedCounts(n: nat, same: (Tuple, Tuple) -> bool, S: seq<Tuple>)
    requires 2 <= |S| && forall t :: t in S ==> n < |t|
    ensures forall t :: multiset(Survivors(n, MarkLoop(n, same, S, S[0][n], 0)))[t] == Kept(n, same, S, t)
  {
    var M := MarkLoop(n, same, S, S[0][n], 0);
    if Dominates(n, same, S[0], S[1]) {
      var x := S[1][n := -1];
      assert M == S[1 := x];
      assert multiset(M) == multiset(S) - multiset{S[1]} + multiset{x};
    }
  }

  // ---------------------------------------------------------------------
  // findResult and solve

  /** `findResult(k, S)`: the largest slot `k` among the tuples, and at least 0. */
  function FindResult(k: nat, S: seq<Tuple>): (r: int)
    requires forall t :: t in S ==> k < |t|
    ensures r >= 0
    ensures forall t :: t in S ==> t[k] <= r
    ensures r == 0 || exists t :: t in S && t[k] == r
    decreases |S|
  {
    if |S| == 0 then 0
    else
      var max := FindResult(k, S[..|S| - 1]);
      var x := S[|S| - 1][k];
      if x >= max then x else max
  }

  /** One round of the loop of `solve`: generate with item `j`, then purge. */
  function Round(inst: Instance, same: (Tuple, Tuple) -> bool, S: seq<Tuple>, j: nat): (r: Result<seq<Tuple>, Failure>)
    requires Valid(inst) && forall t :: t in S ==> |t| == inst.items + 1
    ensures r.Ok? ==> forall t :: t in r.value ==> |t| == inst.items + 1
    ensures r.Ok? && inst.bidders <= inst.items && AllBalanced(inst, S) ==> AllBalanced(inst, r.value)
    ensures r.Ok? && inst.bidders <= inst.items && NonNegativeBids(inst) && AllRealizable(inst, j, S) ==>
      AllRealizable(inst, j + 1, r.value)
  {
    var g := Generate(inst, S, j);
    if g.Err? then Err(g.error) else Purge(inst, g.value, same)
  }

  /**
   * The loop of `solve` from round `j` on. The rounds keep every tuple
   * balanced, and with non-negative bids every tuple stays the revenue of an
   * allocation of the items handed out so far.
   */
  function Run(inst: Instance, same: (Tuple, Tuple) -> bool, S: seq<Tuple>, j: nat): (r: Result<seq<Tuple>, Failure>)
    requires Valid(inst) && j <= inst.bidders
    requires forall t :: t in S ==> |t| == inst.items + 1
    ensures r.Ok? ==> forall t :: t in r.value ==> |t| == inst.items + 1
    ensures r.Ok? && inst.bidders <= inst.items && AllBalanced(inst, S) ==> AllBalanced(inst, r.value)
    ensures r.Ok? && inst.bidders <= inst.items && NonNegativeBids(inst) && AllRealizable(inst, j, S) ==>
      AllRealizable(inst, inst.bidders, r.value)
    decreases inst.bidders - j
  {
    if j == inst.bidders then Ok(S)
    else
      var p := Round(inst, same, S, j);
      if p.Err? then Err(p.error)
      else Run(inst, same, p.value, j + 1)
  }

  /** `solve`: `bidders` rounds from the all-zero tuple, then `findResult(items, S)`. */
  function Solve(inst: Instance, same: (Tuple, Tuple) -> bool): (r: Result<int, Failure>)
    requires Valid(inst)
    ensures r.Ok? ==> r.value >= 0
  {
    var S := Run(inst, same, [Zero(inst)], 0);
    if S.Err? then Err(S.error) else Ok(FindResult(inst.items, S.value))
  }

  // ---------------------------------------------------------------------
  // When solve returns

  /** The rounds go through whenever there are at least two bidders and no more bidders than items. */
  lemma {:induction false} RunSucceeds(inst: Instance, same: (Tuple, Tuple) -> bool, S: seq<Tuple>, j: nat)
    requires Valid(inst) && 2 <= inst.bidders <= inst.items && j <= inst.bidders
    requires forall t :: t in S ==> |t| == inst.items + 1
    ensures Run(inst, same, S, j).Ok?
    decreases inst.bidders - j
  {
    if j < inst.bidders {
      var g := Generate(inst, S, j);
      if |S| > 0 {
        TimesMonotone(1, |S|, inst.bidders);
      }
      assert |g.value| != 1;
      RunSucceeds(inst, same, Purge(inst, g.value, same).value, j + 1);
    }
  }

  /** With at least two bidders and no more bidders than items, `solve` returns. */
  lemma SolveSucceeds(inst: Instance, same: (Tuple, Tuple) -> bool)
    requires Valid(inst) && 2 <= inst.bidders <= inst.items
    ensures Solve(inst, same).Ok?
  {
    RunSucceeds(inst, same, [Zero(inst)], 0);
  }

  /**
   * Otherwise `solve` throws: with more bidders than items the first child
   * overruns its tuple; with one bidder the first purge has no `S[1]`.
   */
  lemma SolveFails(inst: Instance, same: (Tuple, Tuple) -> bool)
    requires Valid(inst)
    ensures Solve(inst, same).Ok? ==> 2 <= inst.bidders <= inst.items
    ensures inst.bidders > inst.items ==> Solve(inst, same) == Err(ArrayIndexOutOfBounds)
    ensures inst.bidders == 1 ==> Solve(inst, same) == Err(IndexOutOfBounds)
  {
    if inst.bidders == 1 {
      var g := Generate(inst, [Zero(inst)], 0);
      assert |g.value| == 1;
    }
  }

  // ---------------------------------------------------------------------
  // Tuple invariants

  /**
   * The bookkeeping of every tuple the solver builds: slot `bidders` is the
   * sum of the bidders' slots, the slots above it stay 0, and with
   * non-negative budgets no bidder's slot exceeds their budget.
   */
  predicate Balanced(inst: Instance, t: Tuple)
    requires Valid(inst) && inst.bidders <= inst.items
  {
    && |t| == inst.items + 1
    && t[inst.bidders] == Sum(t[..inst.bidders])
    && (forall s :: inst.bidders < s <= inst.items ==> t[s] == 0)
    && (NonNegativeBudgets(inst) ==> forall i :: 0 <= i < inst.bidders ==> t[i] <= inst.budgets[i])
  }

  /**
   * The tuple's bidder slots are the revenues of an allocation of the first
   * `j` items: bidder `i` receives `parts[i]` and pays its capped bid sum.
   */
  ghost predicate Realizes(inst: Instance, j: nat, t: Tuple, parts: seq<nat>)
    requires Valid(inst) && inst.bidders <= inst.items
  {
    && |t| == inst.items + 1
    && |parts| == inst.bidders
    && j <= inst.items
    && IsPartition(parts, Pow2(j) - 1)
    && forall i :: 0 <= i < inst.bidders ==> t[i] == BidderRevenue(inst.budgets[i], inst.bids[i], parts[i])
  }

  ghost predicate Realizable(inst: Instance, j: nat, t: Tuple)
    requires Valid(inst) && inst.bidders <= inst.items
  {
    exists parts :: Realizes(inst, j, t, parts)
  }

  /** The all-zero tuple is balanced, and with non-negative budgets it is the empty allocation. */
  lemma ZeroTuple(inst: Instance)
    requires Valid(inst) && inst.bidders <= inst.items
    ensures Balanced(inst, Zero(inst))
    ensures NonNegativeBudgets(inst) ==> Realizes(inst, 0, Zero(inst), seq(inst.bidders, _ => 0))
  {
    var n := inst.bidders;
    assert Zero(inst)[..n] == seq(n, _ => 0);
    SumOfZeros(n);
    if NonNegativeBudgets(inst) {
      NothingIsPartition(n);
      forall i | 0 <= i < n
        ensures BidderRevenue(inst.budgets[i], inst.bids[i], 0) == 0
      {
        BidSumOfZero(inst.bids[i]);
      }
    }
  }

  /** Every child of a balanced tuple is balanced. */
  lemma ChildBalanced(inst: Instance, t: Tuple, i: nat, j: nat)
    requires Valid(inst) && i < inst.bidders <= inst.items && j < inst.items
    requires Balanced(inst, t)
    ensures Balanced(inst, Child(inst, t, i, j))
  {
    var n := inst.bidders;
    var c := Child(inst, t, i, j);
    ChildSlots(inst, t, i, j);
    SumUpdate(t[..n], i, c[i]);
    assert c[..n] == t[..n][i := c[i]];
  }

  /**
   * With non-negative bids, the child that gives item `j` to bidder `i`
   * realizes the allocation that adds `j` to bidder `i`'s items.
   */
  lemma ChildRealizes(inst: Instance, t: Tuple, parts: seq<nat>, i: nat, j: nat)
    requires Valid(inst) && i < inst.bidders <= inst.items && j < inst.items && |t| == inst.items + 1
    requires NonNegativeBids(inst)
    requires Realizes(inst, j, t, parts)
    ensures Realizes(inst, j + 1, Child(inst, t, i, j), parts[i := parts[i] + Pow2(j)])
  {
    ChildSlots(inst, t, i, j);
    LowMaskStep(j);
    PartitionAddItem(parts, Pow2(j) - 1, i, j);
    assert inst.bids[i][j] >= 0;
    BidSumAdd(inst.bids[i], parts[i], j);
  }

  /** The children of a balanced tuple are balanced; those of a realizable tuple are realizable one item further. */
  lemma ChildrenKeep(inst: Instance, s: Tuple, j: nat)
    requires Valid(inst) && inst.bidders <= inst.items && j < inst.items && |s| == inst.items + 1
    ensures Balanced(inst, s) ==> AllBalanced(inst, Children(inst, s, j, inst.bidders))
    ensures NonNegativeBids(inst) && Realizable(inst, j, s) ==> AllRealizable(inst, j + 1, Children(inst, s, j, inst.bidders))
  {
    if Balanced(inst, s) {
      ChildrenBalanced(inst, s, j, inst.bidders);
    }
    if NonNegativeBids(inst) && Realizable(inst, j, s) {
      ChildrenRealizable(inst, s, j, inst.bidders);
    }
  }

  /** The children of a balanced tuple are balanced. */
  lemma {:induction false} ChildrenBalanced(inst: Instance, s: Tuple, j: nat, m: nat)
    requires Valid(inst) && m <= inst.bidders <= inst.items && j < inst.items
    requires Balanced(inst, s)
    ensures AllBalanced(inst, Children(inst, s, j, m))
  {
    if m > 0 {
      ChildrenBalanced(inst, s, j, m - 1);
      ChildBalanced(inst, s, m - 1, j);
    }
  }

  /** With non-negative bids, the children of a realizable tuple are realizable one item further. */
  lemma {:induction false} ChildrenRealizable(inst: Instance, s: Tuple, j: nat, m: nat)
    requires Valid(inst) && m <= inst.bidders <= inst.items && j < inst.items && NonNegativeBids(inst)
    requires |s| == inst.items + 1 && Realizable(inst, j, s)
    ensures AllRealizable(inst, j + 1, Children(inst, s, j, m))
  {
    if m > 0 {
      ChildrenRealizable(inst, s, j, m - 1);
      var parts :| Realizes(inst, j, s, parts);
      ChildRealizes(inst, s, parts, m - 1, j);
    }
  }

  /**
   * Balance and realizability hold of a whole list when they hold of two
   * parts of it; used to carry them over the parents and children of Expand.
   */
  lemma ListsJoin(inst: Instance, j: nat, A: seq<Tuple>, B: seq<Tuple>, C: seq<Tuple>, D: seq<Tuple>)
    requires Valid(inst) && inst.bidders <= inst.items
    ensures AllBalanced(inst, A + B) ==> AllBalanced(inst, A) && AllBalanced(inst, B)
    ensures AllRealizable(inst, j, A + B) ==> AllRealizable(inst, j, A) && AllRealizable(inst, j, B)
    ensures AllBalanced(inst, C) && AllBalanced(inst, D) ==> AllBalanced(inst, C + D)
    ensures AllRealizable(inst, j + 1, C) && AllRealizable(inst, j + 1, D) ==> AllRealizable(inst, j + 1, C + D)
  {
  }

  /** Every tuple of the list is balanced. */
  predicate AllBalanced(inst: Instance, S: seq<Tuple>)
    requires Valid(inst) && inst.bidders <= inst.items
  {
    forall t :: t in S ==> Balanced(inst, t)
  }

  /** Every tuple of the list is the revenue of an allocation of the first `j` items. */
  ghost predicate AllRealizable(inst: Instance, j: nat, S: seq<Tuple>)
    requires Valid(inst) && inst.bidders <= inst.items
  {
    forall t :: t in S ==> |t| == inst.items + 1 && Realizable(inst, j, t)
  }

  /** The list the rounds start from is balanced and, with non-negative input, realizable. */
  lemma StartKeeps(inst: Instance)
    requires Valid(inst) && inst.bidders <= inst.items
    ensures AllBalanced(inst, [Zero(inst)])
    ensures NonNegativeBudgets(inst) && NonNegativeBids(inst) ==> AllRealizable(inst, 0, [Zero(inst)])
  {
    ZeroTuple(inst);
    if NonNegativeBudgets(inst) && NonNegativeBids(inst) {
      assert Realizes(inst, 0, Zero(inst), seq(inst.bidders, _ => 0));
    }
  }

  /** With fewer bidders than items the read slot `items` is never written, so `solve` returns 0. */
  lemma FewerBiddersGiveZero(inst: Instance, same: (Tuple, Tuple) -> bool)
    requires Valid(inst) && inst.bidders < inst.items
    ensures Solve(inst, same).Ok? ==> Solve(inst, same).value == 0
  {
    StartKeeps(inst);
  }

  /** `r` is the revenue of some allocation of all items to all bidders. */
  ghost predicate IsRevenue(inst: Instance, r: int)
    requires Shaped(inst)
  {
    exists parts :: |parts| == inst.bidders && IsPartition(parts, FullMask(inst.items)) && Value(inst, parts) == r
  }

  /** A balanced tuple that realizes an allocation of all items holds its value in the total slot. */
  lemma TupleIsAllocation(inst: Instance, t: Tuple)
    requires Valid(inst) && inst.bidders == inst.items
    requires Balanced(inst, t) && Realizable(inst, inst.items, t)
    ensures IsRevenue(inst, t[inst.items])
  {
    var n := inst.bidders;
    var parts :| Realizes(inst, n, t, parts);
    ValueIsSum(inst, parts, t[..n]);
  }

  /** With as many bidders as items, every tuple left after the rounds records an allocation. */
  lemma RoundsGiveAllocations(inst: Instance, same: (Tuple, Tuple) -> bool)
    requires Valid(inst) && NonNegativeBudgets(inst) && NonNegativeBids(inst)
    requires 2 <= inst.bidders == inst.items
    ensures Run(inst, same, [Zero(inst)], 0).Ok?
    ensures forall t :: t in Run(inst, same, [Zero(inst)], 0).value ==> IsRevenue(inst, t[inst.items])
  {
    StartKeeps(inst);
    RunSucceeds(inst, same, [Zero(inst)], 0);
    var S := Run(inst, same, [Zero(inst)], 0).value;
    assert AllBalanced(inst, S) && AllRealizable(inst, inst.items, S);
    forall t | t in S
      ensures IsRevenue(inst, t[inst.items])
    {
      TupleIsAllocation(inst, t);
    }
  }

  /**
   * With non-negative budgets and bids, whatever `solve` returns is 0 or the
   * revenue of an allocation of all items: every surviving tuple's total is
   * the value of the allocation it records.
   */
  lemma SolveIsAllocation(inst: Instance, same: (Tuple, Tuple) -> bool)
    requires Valid(inst) && NonNegativeBudgets(inst) && NonNegativeBids(inst)
    ensures Solve(inst, same).Ok? ==> Solve(inst, same).value == 0 || IsRevenue(inst, Solve(inst, same).value)
  {
    SolveFails(inst, same);
    if inst.bidders < inst.items {
      FewerBiddersGiveZero(inst, same);
    } else if Solve(inst, same).Ok? {
      RoundsGiveAllocations(inst, same);
    }
  }

  /**
   * With non-negative budgets and bids, whatever `solve` returns is at most
   * the optimal revenue.
   */
  lemma DpaBelowExact(inst: Instance, same: (Tuple, Tuple) -> bool, v: int)
    requires Valid(inst) && NonNegativeBudgets(inst) && NonNegativeBids(inst)
    requires IsOptimal(inst, v)
    ensures Solve(inst, same).Ok? ==> Solve(inst, same).value <= v
  {
    var best :| |best| == inst.bidders && IsPartition(best, FullMask(inst.items)) && Value(inst, best) == v;
    ValueNonNegative(inst, best);
    SolveIsAllocation(inst, same);
  }
}
