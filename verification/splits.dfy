/**
 * The dynamic programme shared by both exact solvers.
 *
 * A table `S` holds one revenue per mask `u < |S|`. After the first
 * `count` bidders have been merged, `S[u]` is the best revenue from the items
 * of `u` among those bidders; merging the revenue table `Sp` of the next
 * bidder picks, for each `u`, the best way to split `u` between the two.
 * The two sources enumerate the candidate splits differently; both choices
 * are characterised here and shown to agree with the plain maximum.
 */
module Splits {
  import opened Bits
  import opened AuctionInstance
  import opened Auction

  // ---------------------------------------------------------------------
  // Tables

  /** Every entry of `S` is the best revenue of its mask among the first `count` bidders. */
  ghost predicate TableIsBest(inst: Instance, count: nat, S: seq<int>)
    requires Shaped(inst) && count <= inst.bidders
  {
    forall u: nat :: u < |S| ==> IsBestFor(inst, count, u, S[u])
  }

  lemma TableEntry(inst: Instance, count: nat, T: seq<int>, u: nat)
    requires Shaped(inst) && count <= inst.bidders
    requires TableIsBest(inst, count, T) && u < |T|
    ensures IsBestFor(inst, count, u, T[u])
  {
  }

  /** A zero-initialised buffer of `size` entries (`IntArray(size)`, `std::vector<int>(size)`). */
  method Zeros(size: nat) returns (a: array<int>)
    ensures fresh(a) && a.Length == size
    ensures forall j :: 0 <= j < size ==> a[j] == 0
  {
    a := new int[size](_ => 0);
  }

  /** Every non-empty mask of `S` holds what the bidder pays for it. */
  predicate TableIsRevenue(budget: int, row: seq<int>, S: seq<int>)
  {
    forall u: nat :: 1 <= u < |S| ==> S[u] == BidderRevenue(budget, row, u)
  }

  /** Giving the items of `m` to the merged bidders and the rest of `u` to the next one. */
  function SplitValue(S: seq<int>, Sp: seq<int>, u: nat, m: nat): int
    requires u < |S| && u < |Sp| && IsSubmask(m, u)
  {
    SubmaskBelow(m, u);
    AndNotIsSubmask(u, m);
    S[m] + Sp[AndNot(u, m)]
  }

  /** `r` is the largest split value over all submasks of `u`. */
  ghost predicate IsMaxSplit(S: seq<int>, Sp: seq<int>, u: nat, r: int)
    requires u < |S| && u < |Sp|
  {
    && (forall m: nat :: IsSubmask(m, u) ==> SplitValue(S, Sp, u, m) <= r)
    && (exists m: nat :: IsSubmask(m, u) && SplitValue(S, Sp, u, m) == r)
  }

  /**
   * What the Kotlin merge computes for `u`: the larger of `S[u]` and
   * `Sp[u]`, and of the split values of the submasks strictly between 0 and `u`.
   */
  ghost predicate IsKotlinSplit(S: seq<int>, Sp: seq<int>, u: nat, r: int)
    requires u < |S| && u < |Sp|
  {
    && S[u] <= r
    && Sp[u] <= r
    && (forall m: nat :: IsSubmask(m, u) && 0 < m < u ==> SplitValue(S, Sp, u, m) <= r)
    && (r == S[u] || r == Sp[u] || exists m: nat :: IsSubmask(m, u) && 0 < m < u && SplitValue(S, Sp, u, m) == r)
  }

  /**
   * What the C++ merge computes for `u`: the larger of `S[u]` and the split
   * values of all submasks of `u`.
   */
  ghost predicate IsCppSplit(S: seq<int>, Sp: seq<int>, u: nat, r: int)
    requires u < |S| && u < |Sp|
  {
    && S[u] <= r
    && (forall m: nat :: IsSubmask(m, u) ==> SplitValue(S, Sp, u, m) <= r)
    && (r == S[u] || exists m: nat :: IsSubmask(m, u) && SplitValue(S, Sp, u, m) == r)
  }

  // ---------------------------------------------------------------------
  // The merge step

  /**
   * The recurrence of the dynamic programme: if `S` is best for `count`
   * bidders and `Sp` is the revenue table of bidder `count`, the maximum
   * split of `u` is the best revenue of `u` among `count + 1` bidders.
   */
  lemma MergeStep(inst: Instance, count: nat, S: seq<int>, Sp: seq<int>, u: nat, r: int)
    requires Shaped(inst) && count < inst.bidders
    requires u < |S| && u < |Sp|
    requires TableIsBest(inst, count, S)
    requires forall x: nat :: x < |Sp| ==> Sp[x] == BidderRevenue(inst.budgets[count], inst.bids[count], x)
    requires IsMaxSplit(S, Sp, u, r)
    ensures IsBestFor(inst, count + 1, u, r)
  {
    forall parts | |parts| == count + 1 && IsPartition(parts, u)
      ensures Value(inst, parts) <= r
    {
      SplitBound(inst, count, S, Sp, u, parts);
    }
    var m: nat :| IsSubmask(m, u) && SplitValue(S, Sp, u, m) == r;
    var parts := SplitWitness(inst, count, S, Sp, u, m);
  }

  /** No allocation of `u` among `count + 1` bidders beats the split its last bidder induces. */
  lemma SplitBound(inst: Instance, count: nat, S: seq<int>, Sp: seq<int>, u: nat, parts: seq<nat>)
    requires Shaped(inst) && count < inst.bidders
    requires u < |S| && u < |Sp|
    requires TableIsBest(inst, count, S)
    requires forall x: nat :: x < |Sp| ==> Sp[x] == BidderRevenue(inst.budgets[count], inst.bids[count], x)
    requires |parts| == count + 1 && IsPartition(parts, u)
    ensures IsSubmask(AndNot(u, parts[count]), u)
    ensures Value(inst, parts) <= SplitValue(S, Sp, u, AndNot(u, parts[count]))
  {
    var x := parts[count];
    var rest := parts[..count];
    var m := AndNot(u, x);
    assert IsSubmask(x, u) && IsPartition(rest, m);
    AndNotIsSubmask(u, x);
    AndNotTwice(u, x);
    SubmaskBelow(x, u);
    SubmaskBelow(m, u);
    TableEntry(inst, count, S, m);
    assert Value(inst, rest) <= S[m];
  }

  /** The split of `u` at `m` is attained by an allocation among `count + 1` bidders. */
  lemma SplitWitness(inst: Instance, count: nat, S: seq<int>, Sp: seq<int>, u: nat, m: nat) returns (parts: seq<nat>)
    requires Shaped(inst) && count < inst.bidders
    requires u < |S| && u < |Sp| && IsSubmask(m, u)
    requires TableIsBest(inst, count, S)
    requires forall x: nat :: x < |Sp| ==> Sp[x] == BidderRevenue(inst.budgets[count], inst.bids[count], x)
    ensures |parts| == count + 1 && IsPartition(parts, u)
    ensures Value(inst, parts) == SplitValue(S, Sp, u, m)
  {
    SubmaskBelow(m, u);
    TableEntry(inst, count, S, m);
    var w :| |w| == count && IsPartition(w, m) && Value(inst, w) == S[m];
    parts := ExtendPartition(inst, w, m, u);
    var x := AndNot(u, m);
    AndNotIsSubmask(u, m);
    SubmaskBelow(x, u);
    assert SplitValue(S, Sp, u, m) == S[m] + Sp[x];
  }

  /** The revenue table of the first bidder, with 0 for the empty mask, is best for one bidder. */
  lemma FirstTableIsBest(inst: Instance, S: seq<int>)
    requires Shaped(inst) && inst.bidders >= 1 && NonNegativeBudgets(inst)
    requires |S| >= 1 && S[0] == 0
    requires TableIsRevenue(inst.budgets[0], inst.bids[0], S)
    ensures TableIsBest(inst, 1, S)
  {
    forall u: nat | u < |S|
      ensures IsBestFor(inst, 1, u, S[u])
    {
      SingleBidderIsBest(inst, u);
      if u == 0 {
        BidSumOfZero(inst.bids[0]);
      }
    }
  }

  /**
   * One round of the Kotlin solver: merging the revenue table of bidder
   * `count` into a table that is best for `count` bidders yields one that
   * is best for `count + 1`, provided the empty mask holds 0 throughout.
   */
  lemma KotlinRound(inst: Instance, count: nat, S: seq<int>, Sp: seq<int>, Sr: seq<int>)
    requires Shaped(inst) && NonNegativeBudgets(inst) && count < inst.bidders
    requires |S| == |Sp| == |Sr| >= 1 && S[0] == 0 && Sp[0] == 0 && Sr[0] == 0
    requires TableIsBest(inst, count, S)
    requires TableIsRevenue(inst.budgets[count], inst.bids[count], Sp)
    requires forall u: nat :: 1 <= u < |Sr| ==> IsKotlinSplit(S, Sp, u, Sr[u])
    ensures TableIsBest(inst, count + 1, Sr)
  {
    BidSumOfZero(inst.bids[count]);
    assert forall x: nat :: x < |Sp| ==> Sp[x] == BidderRevenue(inst.budgets[count], inst.bids[count], x);
    forall u: nat | u < |Sr|
      ensures IsBestFor(inst, count + 1, u, Sr[u])
    {
      if u == 0 {
        EmptyMaskIsBest(inst, count + 1);
      } else {
        KotlinSplitIsMax(S, Sp, u, Sr[u]);
        MergeStep(inst, count, S, Sp, u, Sr[u]);
      }
    }
  }

  /** The same round for the C++ merge, which needs only `Sp[0] == 0`. */
  lemma CppRound(inst: Instance, count: nat, S: seq<int>, Sp: seq<int>, Sr: seq<int>)
    requires Shaped(inst) && NonNegativeBudgets(inst) && count < inst.bidders
    requires |S| == |Sp| == |Sr| >= 1 && Sp[0] == 0 && Sr[0] == 0
    requires TableIsBest(inst, count, S)
    requires TableIsRevenue(inst.budgets[count], inst.bids[count], Sp)
    requires forall u: nat :: 1 <= u < |Sr| ==> IsCppSplit(S, Sp, u, Sr[u])
    ensures TableIsBest(inst, count + 1, Sr)
  {
    BidSumOfZero(inst.bids[count]);
    assert forall x: nat :: x < |Sp| ==> Sp[x] == BidderRevenue(inst.budgets[count], inst.bids[count], x);
    forall u: nat | u < |Sr|
      ensures IsBestFor(inst, count + 1, u, Sr[u])
    {
      if u == 0 {
        EmptyMaskIsBest(inst, count + 1);
      } else {
        CppSplitIsMax(S, Sp, u, Sr[u]);
        MergeStep(inst, count, S, Sp, u, Sr[u]);
      }
    }
  }

  // ---------------------------------------------------------------------
  // The two merges compute the maximum split

  /** The candidates `m == u` and `m == 0` are the entries `S[u]` and `Sp[u]` when the empty masks hold 0. */
  lemma ExtremeSplits(S: seq<int>, Sp: seq<int>, u: nat)
    requires u < |S| && u < |Sp|
    ensures IsSubmask(u, u) && IsSubmask(0, u)
    ensures SplitValue(S, Sp, u, u) == S[u] + Sp[0]
    ensures SplitValue(S, Sp, u, 0) == S[0] + Sp[u]
  {
    ZeroIsSubmask(u);
    AndNotSelf(u);
    AndNotZero(u);
  }

  /** With 0 for both empty masks, the Kotlin merge computes exactly the maximum split. */
  lemma KotlinSplitIsMax(S: seq<int>, Sp: seq<int>, u: nat, r: int)
    requires u < |S| && u < |Sp| && S[0] == 0 && Sp[0] == 0
    ensures IsKotlinSplit(S, Sp, u, r) <==> IsMaxSplit(S, Sp, u, r)
  {
    ExtremeSplits(S, Sp, u);
    if IsKotlinSplit(S, Sp, u, r) {
      forall m: nat | IsSubmask(m, u)
        ensures SplitValue(S, Sp, u, m) <= r
      {
        SubmaskBelow(m, u);
      }
      if r == S[u] {
        assert SplitValue(S, Sp, u, u) == r;
      } else if r == Sp[u] {
        assert SplitValue(S, Sp, u, 0) == r;
      }
    }
    if IsMaxSplit(S, Sp, u, r) {
      assert SplitValue(S, Sp, u, u) <= r && SplitValue(S, Sp, u, 0) <= r;
      var m: nat :| IsSubmask(m, u) && SplitValue(S, Sp, u, m) == r;
      SubmaskBelow(m, u);
      if m == u {
        assert r == S[u];
      } else if m == 0 {
        assert r == Sp[u];
      } else {
        assert 0 < m < u;
      }
    }
  }

  /** With 0 for the empty mask of `Sp`, the C++ merge computes exactly the maximum split. */
  lemma CppSplitIsMax(S: seq<int>, Sp: seq<int>, u: nat, r: int)
    requires u < |S| && u < |Sp| && Sp[0] == 0
    ensures IsCppSplit(S, Sp, u, r) <==> IsMaxSplit(S, Sp, u, r)
  {
    ExtremeSplits(S, Sp, u);
    if IsCppSplit(S, Sp, u, r) && r == S[u] {
      assert SplitValue(S, Sp, u, u) == r;
    }
    if IsMaxSplit(S, Sp, u, r) {
      assert SplitValue(S, Sp, u, u) <= r;
    }
  }

  /** When both empty masks hold 0, the Kotlin and the C++ merge agree on every mask. */
  lemma MergesAgree(S: seq<int>, Sp: seq<int>, u: nat, r: int)
    requires u < |S| && u < |Sp| && S[0] == 0 && Sp[0] == 0
    ensures IsKotlinSplit(S, Sp, u, r) <==> IsCppSplit(S, Sp, u, r)
  {
    KotlinSplitIsMax(S, Sp, u, r);
    CppSplitIsMax(S, Sp, u, r);
  }

  // ---------------------------------------------------------------------
  // Submask enumeration

  /** The masks `m, (m-1) & u, ((m-1) & u - 1) & u, ...` down to, and without, 0. */
  function SubmasksFrom(u: nat, m: nat): seq<nat>
    decreases m
  {
    if m == 0 then []
    else
      AndIsSubmask(m - 1, u);
      [m] + SubmasksFrom(u, And(m - 1, u))
  }

  /** The elements of `s` strictly decrease. */
  predicate Decreasing(s: seq<nat>)
  {
    forall i, j :: 0 <= i < j < |s| ==> s[i] > s[j]
  }

  /**
   * Starting from a submask `m` of `u`, the enumeration visits, in
   * decreasing order, exactly the non-zero submasks of `u` up to `m`.
   */
  lemma {:induction false} SubmasksFromSpec(u: nat, m: nat)
    requires IsSubmask(m, u)
    ensures Decreasing(SubmasksFrom(u, m))
    ensures forall x: nat :: x in SubmasksFrom(u, m) <==> IsSubmask(x, u) && 0 < x <= m
    decreases m
  {
    if m > 0 {
      var next := And(m - 1, u);
      PrevSubmaskBelow(u, m);
      SubmasksFromSpec(u, next);
      var tail := SubmasksFrom(u, next);
      assert SubmasksFrom(u, m) == [m] + tail;
      forall x: nat | IsSubmask(x, u) && 0 < x < m
        ensures x in tail
      {
        PrevSubmask(u, m, x);
      }
      var s := SubmasksFrom(u, m);
      forall i, j | 0 <= i < j < |s|
        ensures s[i] > s[j]
      {
        assert s[j] == tail[j - 1] && s[j] in tail;
        if i > 0 {
          assert s[i] == tail[i - 1];
        }
      }
    } else {
      forall x: nat | IsSubmask(x, u) && x <= m
        ensures x == 0
      {
      }
    }
  }

  /**
   * The masks the Kotlin merge loop visits for `u`: it starts at
   * `(u - 1) & u` and stops on reaching 0.
   */
  function KotlinVisits(u: nat): seq<nat>
    requires u > 0
  {
    SubmasksFrom(u, And(u - 1, u))
  }

  /** The Kotlin loop visits every non-zero proper submask of `u` once, in decreasing order. */
  lemma KotlinVisitsSpec(u: nat)
    requires u > 0
    ensures Decreasing(KotlinVisits(u))
    ensures forall x: nat :: x in KotlinVisits(u) <==> IsSubmask(x, u) && 0 < x < u
  {
    var m := And(u - 1, u);
    PrevSubmaskBelow(u, u);
    SubmasksFromSpec(u, m);
    forall x: nat | IsSubmask(x, u) && x < u
      ensures x <= m
    {
      PrevSubmask(u, u, x);
    }
  }

  /** Unsigned 32-bit decrement: `0 - 1` wraps around to the all-ones word. */
  function Dec32(m: nat): nat
    requires m < Word
  {
    (m - 1) % Word
  }

  /**
   * The masks the C++ do-while loop visits for `u`: it starts at `u` itself
   * and, after 0, wraps around to `u` and stops.
   */
  function CppVisits(u: nat): seq<nat>
  {
    SubmasksFrom(u, u) + [0]
  }

  /**
   * The C++ loop visits every submask of `u`, 0 and `u` included, once, in
   * decreasing order, and the step after 0 lands back on `u`.
   */
  lemma CppVisitsSpec(u: nat)
    requires u < Word
    ensures Decreasing(CppVisits(u))
    ensures forall x: nat :: x in CppVisits(u) <==> IsSubmask(x, u)
    ensures And(Dec32(0), u) == u
  {
    var head := SubmasksFrom(u, u);
    var s := CppVisits(u);
    ZeroIsSubmask(u);
    SubmasksFromSpec(u, u);
    forall x: nat | IsSubmask(x, u)
      ensures x in s
    {
      SubmaskBelow(x, u);
      if x > 0 {
        assert x in head;
      }
    }
    forall i, j | 0 <= i < j < |s|
      ensures s[i] > s[j]
    {
      assert s[i] == head[i] && s[i] in head;
      if j < |head| {
        assert s[j] == head[j];
      }
    }
    assert Dec32(0) == Word - 1;
    AllOnesAnd(u);
  }
}
