# fastauction in Dafny

fastauction solves the budget-constrained combinatorial auction. Each of
`bidders` bidders has a budget and one bid per item. Every item goes to
exactly one bidder. A bidder pays the sum of their bids on the items they
receive, capped by their budget. The seller's revenue is the sum of these
payments. The solvers compute the best revenue over all allocations.

The repository has two exact solvers that implement the same dynamic
programme over item sets: one in Kotlin (`AuctionSolverExact`) and one in
C++ (`fastauction::solve_revenue`). It also has an approximate solver
(`AuctionSolverDPA`), the instance type with its validity checks
(`AuctionInstance`), and a text reader for instances
(`AuctionInstanceReader`).

The model has one module per concern.

- `Outcomes` holds `Option` and `Result`. They stand in for Kotlin's
  nullable values and for the exceptions the sources throw.
- `AuctionInstance` models the instance, its constructor checks and its
  equality.
- `Bits` is a small library of 32-bit word operations. It works on `nat`
  masks: and, and-not, complement, shift, trailing zeros, and the submask
  step `(m - 1) & u`.
- `Auction` defines what a solver must compute. An allocation is a
  sequence of disjoint item masks, one per bidder, and `IsOptimal` says a
  number is the best revenue over all allocations.
- `Splits` covers the shared dynamic programme. After `count` bidders, a
  table entry `S[u]` is the best revenue from the items of `u`. It
  characterises the two merge loops and proves that they agree.
- `Exact` models the Kotlin exact solver.
- `FastAuction` models the C++ exact solver. It covers the code as
  written, and a corrected version (see Findings).
- `Dpa` models the approximate solver exactly as written, including where
  it fails.
- `Reader` models the instance reader on a sequence of lines. It also has
  a writer whose output the reader reads back.

Masks are mathematical naturals. Kotlin's `shl`, the C++ unsigned
wrap-around in `merge`'s do-while loop, and the complement `~m` are written
out explicitly.

### Where the code departs from the algorithm it documents

The model follows the code in each case.

- **DPA loop and slots.**
  - `AuctionSolverDPA.solve` loops over `j < bidders`, not over the items.
  - It sizes tuples by `items + 1`, while `generate` keeps the running
    total in slot `bidders`.
  - `findResult` reads slot `items`.
  - Consequence: with more bidders than items the solver fails with an
    array index error. With at least two bidders and fewer bidders than
    items it returns 0.
- **DPA purge.**
  - Because of the inner loop's counters, `purge` compares only the first
    tuple with the second.
  - On a list of exactly one tuple it reads past the end. So the solver
    fails whenever the instance has a single bidder.
- **C++ table bound.** `solve_revenue` passes `bidders` as the table bound
  to `generate` and `merge`, and returns `S[bidders - 1]`. The intended
  values are `2^items` and `S[2^items - 1]`: the tables hold `2^items`
  entries, and the header promises the maximum revenue.
- **C++ bid stride.** `solve_revenue` reads bidder `i`'s bids from
  `b + i * bidders`. The only code that fills `b`, `read_instance`, writes
  with the same stride (`b[i * n + j]`, fastauction.cpp:26). So the reader
  and the solver agree on the layout. The case for stride `items` rests
  only on the vector's size `bidders * items` (fastauction.cpp:18). A fix
  to the stride must change both functions. The corrected model
  (`FastAuction.SolveRevenue`) reads rows at stride `items`, as a fixed
  `read_instance` would write them.

## Model

| member | source | states |
|---|---|---|
| `AuctionInstance.Create` | src/main/kotlin/com/github/fabianishere/fastauction/AuctionInstance.kt:36-42 | The constructor succeeds exactly when all five checks hold. A rejected instance reports the first check that fails, in source order. An accepted instance keeps its fields and is valid. |
| `AuctionInstance.ValidIsCreated` | src/main/kotlin/com/github/fabianishere/fastauction/AuctionInstance.kt:36-42 | Every instance that meets the checks is accepted unchanged. |
| `AuctionInstance.Equals` | src/main/kotlin/com/github/fabianishere/fastauction/AuctionInstance.kt:44-48 | Two instances are equal exactly when the other is present and all four fields agree, arrays compared by content. |
| `AuctionInstance.EqualsSymmetric` | src/main/kotlin/com/github/fabianishere/fastauction/AuctionInstance.kt:44-48 | Equality is reflexive and symmetric. |
| `Bits.Ctz` | src/main/kotlin/com/github/fabianishere/fastauction/AuctionSolverExact.kt:143 | `numberOfTrailingZeros` of a non-zero word is a set bit with no set bit below it. |
| `Bits.HighWordMask` | src/main/kotlin/com/github/fabianishere/fastauction/AuctionSolverExact.kt:142 | Shifting the all-ones word left by `k < 32` keeps exactly bits `k` to 31. |
| `Bits.NotAnd` | fastauction.cpp:128 | `~m & u` on 32-bit words is the set of bits of `u` that are not in `m`. |
| `Bits.PrevSubmask` | src/main/kotlin/com/github/fabianishere/fastauction/AuctionSolverExact.kt:127 | `(m - 1) & u` is at least every submask of `u` below `m`, so the submask loop skips none. |
| `Bits.PrevSubmaskBelow` | fastauction.cpp:129 | `(m - 1) & u` is a submask of `u` strictly below `m`, so the loop makes progress. |
| `Auction.BidSumAdd` | src/main/kotlin/com/github/fabianishere/fastauction/AuctionSolverExact.kt:93-95 | Adding an item to a mask adds that item's bid to the bidder's bid sum. |
| `Auction.BidSumFull` | src/main/kotlin/com/github/fabianishere/fastauction/AuctionSolverExact.kt:58 | The mask of all items sums the bidder's whole bid row. |
| `Auction.EmptyMaskIsBest` | src/main/kotlin/com/github/fabianishere/fastauction/AuctionSolverExact.kt:42-44 | With non-negative budgets, 0 is the best revenue from no items. This is why the zero-initialised entry `S[0]` is never written. |
| `Auction.SingleBidderIsBest` | src/main/kotlin/com/github/fabianishere/fastauction/AuctionSolverExact.kt:46 | With one bidder, the first bidder's capped bid sum is the best revenue for every mask. |
| `Auction.ExtendPartition` | src/main/kotlin/com/github/fabianishere/fastauction/AuctionSolverExact.kt:126 | Giving the items of `u` outside a partitioned `m` to the next bidder partitions `u`. Its value grows by that bidder's revenue on those items. |
| `Splits.MergeStep` | src/main/kotlin/com/github/fabianishere/fastauction/AuctionSolverExact.kt:108-131 | Take the best split of `u` between a best table and the next bidder's revenues. It is the best revenue of `u` for one more bidder. |
| `Splits.SplitBound` | src/main/kotlin/com/github/fabianishere/fastauction/AuctionSolverExact.kt:126 | No allocation of `u` among `count + 1` bidders beats the split it induces. |
| `Splits.SplitWitness` | src/main/kotlin/com/github/fabianishere/fastauction/AuctionSolverExact.kt:126 | Every split value is reached by some allocation. |
| `Splits.FirstTableIsBest` | src/main/kotlin/com/github/fabianishere/fastauction/AuctionSolverExact.kt:42-46 | The first bidder's revenue table with `S[0] = 0` is a best table for one bidder. |
| `Splits.KotlinRound` | src/main/kotlin/com/github/fabianishere/fastauction/AuctionSolverExact.kt:48-56 | Merging the Kotlin way turns a best table for `count` bidders into one for `count + 1`. |
| `Splits.CppRound` | fastauction.cpp:152-158 | Merging the C++ way turns a best table for `count` bidders into one for `count + 1`. |
| `Splits.ExtremeSplits` | src/main/kotlin/com/github/fabianishere/fastauction/AuctionSolverExact.kt:121 | The splits "all to `S`" and "all to `Sp`" are `S[u] + Sp[0]` and `S[0] + Sp[u]`. |
| `Splits.KotlinSplitIsMax` | src/main/kotlin/com/github/fabianishere/fastauction/AuctionSolverExact.kt:121-128 | The Kotlin merge value has two parts: the start `max(S[u], Sp[u])`, and the proper non-zero submasks. Together they give the maximum over all splits. |
| `Splits.CppSplitIsMax` | fastauction.cpp:123-130 | The C++ merge value has two parts: the start `S[u]`, and every submask including 0 and `u`. Together they give the maximum over all splits. |
| `Splits.MergesAgree` | fastauction.cpp:123-130 | With zero empty-mask entries, the two merge loops compute the same value. |
| `Splits.SubmasksFromSpec` | src/main/kotlin/com/github/fabianishere/fastauction/AuctionSolverExact.kt:124-128 | Stepping down with `(m - 1) & u` from `m` visits, in strictly decreasing order, exactly the non-zero submasks of `u` up to `m`. |
| `Splits.KotlinVisitsSpec` | src/main/kotlin/com/github/fabianishere/fastauction/AuctionSolverExact.kt:124-128 | The Kotlin loop visits, in decreasing order, exactly the non-zero submasks of `u` below `u`. |
| `Splits.CppVisitsSpec` | fastauction.cpp:126-130 | The C++ do-while loop visits, in decreasing order, exactly every submask of `u`. The unsigned step from 0 wraps back to `u`, which ends the loop. |
| `Exact.NextSetBit` | src/main/kotlin/com/github/fabianishere/fastauction/AuctionSolverExact.kt:141-144 | The result is -1 exactly when `s` has no set bit from `i mod 32` up. Otherwise it is the lowest such set bit. |
| `Exact.Revenue` | src/main/kotlin/com/github/fabianishere/fastauction/AuctionSolverExact.kt:88-99 | Walking the set bits returns the bidder's bid sum over the mask, capped by the budget. |
| `Exact.NextBid` | src/main/kotlin/com/github/fabianishere/fastauction/AuctionSolverExact.kt:92-96 | Each step of the set-bit walk adds the bid of the next set bit. When the walk ends, the full bid sum has been collected. |
| `Exact.Generate` | src/main/kotlin/com/github/fabianishere/fastauction/AuctionSolverExact.kt:72-78 | Every entry from 1 up holds the bidder's revenue for its mask, and `S[0]` is untouched. |
| `Exact.MergeCell` | src/main/kotlin/com/github/fabianishere/fastauction/AuctionSolverExact.kt:121-128 | One cell of `merge` is the Kotlin merge value of its mask. |
| `Exact.StepDown` | src/main/kotlin/com/github/fabianishere/fastauction/AuctionSolverExact.kt:127 | The next submask is a submask below `m`, and no submask lies strictly between them. |
| `Exact.Merge` | src/main/kotlin/com/github/fabianishere/fastauction/AuctionSolverExact.kt:108-131 | Every cell from 1 up is the Kotlin merge value of its mask, and `Sr[0]` is untouched. |
| `Exact.FirstTable` | src/main/kotlin/com/github/fabianishere/fastauction/AuctionSolverExact.kt:42-46 | The three tables have `2^items` zero-started entries, and the first is a best table for one bidder. |
| `Exact.Round` | src/main/kotlin/com/github/fabianishere/fastauction/AuctionSolverExact.kt:49-50 | One round turns a best table for `i` bidders into one for `i + 1`. |
| `Exact.Rounds` | src/main/kotlin/com/github/fabianishere/fastauction/AuctionSolverExact.kt:48-56 | After all rounds, the table is best for all bidders. |
| `Exact.Solve` | src/main/kotlin/com/github/fabianishere/fastauction/AuctionSolverExact.kt:34-59 | With non-negative budgets, the result is the optimal revenue over all allocations, as the interface in AuctionSolver.kt promises. With one bidder, it is `min(budget, sum of bids)`. |
| `FastAuction.NextSetBit` | fastauction.cpp:48-57 | The result is -1 exactly when `s` has no set bit from `i` up. Otherwise it is the lowest such set bit. |
| `FastAuction.Revenue` | fastauction.cpp:67-77 | Walking the set bits returns the capped bid sum over the mask. |
| `FastAuction.Generate` | fastauction.cpp:91-98 | Entries `1 .. n - 1` hold the bidder's revenue for their masks. Every other entry is untouched. |
| `FastAuction.MergeCell` | fastauction.cpp:123-132 | One cell of `merge` is the C++ merge value of its mask. |
| `FastAuction.Step` | fastauction.cpp:129 | `(m - 1) & u` in unsigned arithmetic steps to the next smaller submask, and from 0 back to `u`. |
| `FastAuction.Merge` | fastauction.cpp:107-134 | Cells `1 .. n - 1` hold the C++ merge values. All other cells are untouched. |
| `FastAuction.RowsInstance` | fastauction.cpp:138-141 | The flat bid array read with a stride gives an instance of `n` bidders and `k` items with the given budgets. |
| `FastAuction.SolveRevenueWith` | fastauction.cpp:136-161 | The solver takes a table bound and a row stride. With non-negative budgets, it returns the best revenue of the mask `bound - 1` over the rows that stride selects. |
| `FastAuction.SolveTables` | fastauction.cpp:146-158 | The rounds with a table bound give the best revenue of the mask `bound - 1`. |
| `FastAuction.FirstTable` | fastauction.cpp:146-150 | The first table is a best table for one bidder up to the bound. |
| `FastAuction.Round` | fastauction.cpp:153-157 | One round turns a best table for `i` bidders into one for `i + 1`, up to the bound. |
| `FastAuction.Rounds` | fastauction.cpp:152-158 | After all rounds, the table up to the bound is best for all bidders. |
| `FastAuction.SolveRevenueAsWritten` | fastauction.cpp:150-160 | As written, the result is only the best revenue of the mask `bidders - 1`, with bids read at stride `bidders`. With one bidder it is always 0. |
| `FastAuction.AsWrittenMissesRevenue` | fastauction.cpp:150-160 | Take one bidder with budget 5 and bids 1 and 2. The code as written returns 0, but the optimum is 3. |
| `FastAuction.SolveRevenue` | fastauction.h:74-81 | With bound `2^items` and stride `items`, the result is the optimal revenue, as the header promises. With one bidder it is `min(budget, sum of bids)`. |
| `Dpa.TimesIsProduct` | src/main/kotlin/com/github/fabianishere/fastauction/AuctionSolverDPA.kt:73-87 | The list size used for the children is the product of the two counts. |
| `Dpa.Child` | src/main/kotlin/com/github/fabianishere/fastauction/AuctionSolverDPA.kt:75-86 | A child tuple has the same length. Bidder `i`'s slot grows by the bid, capped by the budget. |
| `Dpa.ChildSlots` | src/main/kotlin/com/github/fabianishere/fastauction/AuctionSolverDPA.kt:84-85 | The total slot changes by exactly the change of bidder `i`'s slot. No other slot changes. |
| `Dpa.Children` | src/main/kotlin/com/github/fabianishere/fastauction/AuctionSolverDPA.kt:74-87 | One tuple gives one child per bidder, all of the tuple's length. |
| `Dpa.ChildrenAt` | src/main/kotlin/com/github/fabianishere/fastauction/AuctionSolverDPA.kt:74-87 | The `i`-th child of a tuple gives item `j` to bidder `i`. |
| `Dpa.Expand` | src/main/kotlin/com/github/fabianishere/fastauction/AuctionSolverDPA.kt:68-90 | Expanding a list gives `bidders` children per tuple. It keeps every tuple balanced and keeps every tuple realised by an allocation of the items so far. |
| `Dpa.Generate` | src/main/kotlin/com/github/fabianishere/fastauction/AuctionSolverDPA.kt:68-90 | `generate` fails with an array index error exactly when the list is non-empty and item `j` or bidder slot `bidders` lies outside the tuple. Otherwise it keeps the invariants of `Expand`. |
| `Dpa.SubsequenceMembers` | src/main/kotlin/com/github/fabianishere/fastauction/AuctionSolverDPA.kt:133 | Every tuple of a subsequence is a tuple of the original list. |
| `Dpa.MarkLoop` | src/main/kotlin/com/github/fabianishere/fastauction/AuctionSolverDPA.kt:107-130 | The marking loops mark at most the second tuple, and only when the first dominates it within the same interval. |
| `Dpa.Survivors` | src/main/kotlin/com/github/fabianishere/fastauction/AuctionSolverDPA.kt:133 | `removeIf` keeps, in order, exactly the tuples with a non-negative total. It keeps every copy of each such tuple and no copy of any other. |
| `Dpa.SurvivorsOfMarked` | src/main/kotlin/com/github/fabianishere/fastauction/AuctionSolverDPA.kt:125-133 | After marking, the survivors are a subsequence of the unmarked list. |
| `Dpa.Purge` | src/main/kotlin/com/github/fabianishere/fastauction/AuctionSolverDPA.kt:100-135 | `purge` fails exactly on a one-tuple list. Otherwise it returns a subsequence of non-negative-total tuples. Each tuple keeps all its copies with a non-negative total, less one copy of `S[1]` when `S[0]` dominates it. A tuple is dropped only if its total was negative, or if it is the second tuple and the first dominates it. |
| `Dpa.MarkedCounts` | src/main/kotlin/com/github/fabianishere/fastauction/AuctionSolverDPA.kt:125-133 | Marking `S[1]` and then removing the marked tuples removes exactly one copy of `S[1]`, and only when `S[0]` dominates it. |
| `Dpa.FindResult` | src/main/kotlin/com/github/fabianishere/fastauction/AuctionSolverDPA.kt:168-174 | The result is 0 or the value of slot `k` of some tuple. It is at least every such value and never negative. |
| `Dpa.Round` | src/main/kotlin/com/github/fabianishere/fastauction/AuctionSolverDPA.kt:52-53 | A generate-and-purge round keeps tuple lengths, balance and realisability. |
| `Dpa.Run` | src/main/kotlin/com/github/fabianishere/fastauction/AuctionSolverDPA.kt:51-54 | The remaining rounds keep tuple lengths, balance and realisability up to item `bidders`. |
| `Dpa.Solve` | src/main/kotlin/com/github/fabianishere/fastauction/AuctionSolverDPA.kt:38-57 | A successful run never returns a negative revenue. |
| `Dpa.RunSucceeds` | src/main/kotlin/com/github/fabianishere/fastauction/AuctionSolverDPA.kt:51-54 | With `2 <= bidders <= items`, no round fails. |
| `Dpa.SolveSucceeds` | src/main/kotlin/com/github/fabianishere/fastauction/AuctionSolverDPA.kt:38-57 | With at least two bidders and no more bidders than items, the solver returns a value. |
| `Dpa.SolveFails` | src/main/kotlin/com/github/fabianishere/fastauction/AuctionSolverDPA.kt:38-57 | Outside that range the solver throws. With more bidders than items it fails with an array index error. With one bidder it fails with a list index error. |
| `Dpa.ZeroTuple` | src/main/kotlin/com/github/fabianishere/fastauction/AuctionSolverDPA.kt:49 | The all-zero start tuple is balanced, and the empty allocation realises it. |
| `Dpa.ChildBalanced` | src/main/kotlin/com/github/fabianishere/fastauction/AuctionSolverDPA.kt:81-85 | A child of a balanced tuple is balanced: its total is the sum of the bidder slots. |
| `Dpa.ChildRealizes` | src/main/kotlin/com/github/fabianishere/fastauction/AuctionSolverDPA.kt:75-86 | If an allocation realises a tuple, adding item `j` to bidder `i` realises the child. |
| `Dpa.ChildrenKeep` | src/main/kotlin/com/github/fabianishere/fastauction/AuctionSolverDPA.kt:74-87 | All children of a balanced or realisable tuple are balanced or realisable. |
| `Dpa.ChildrenBalanced` | src/main/kotlin/com/github/fabianishere/fastauction/AuctionSolverDPA.kt:74-87 | Every child of a balanced tuple is balanced. |
| `Dpa.ChildrenRealizable` | src/main/kotlin/com/github/fabianishere/fastauction/AuctionSolverDPA.kt:74-87 | Every child of a realisable tuple is realisable for one more item. |
| `Dpa.StartKeeps` | src/main/kotlin/com/github/fabianishere/fastauction/AuctionSolverDPA.kt:49 | The start list is balanced and realisable before any item is handed out. |
| `Dpa.FewerBiddersGiveZero` | src/main/kotlin/com/github/fabianishere/fastauction/AuctionSolverDPA.kt:56 | With fewer bidders than items, slot `items` is never written, so a successful run returns 0. |
| `Dpa.TupleIsAllocation` | src/main/kotlin/com/github/fabianishere/fastauction/AuctionSolverDPA.kt:44-45 | When `bidders == items`, the total of a balanced, fully realised tuple is the revenue of an allocation. |
| `Dpa.RoundsGiveAllocations` | src/main/kotlin/com/github/fabianishere/fastauction/AuctionSolverDPA.kt:51-54 | When `bidders == items`, every final tuple's total is the revenue of an allocation. |
| `Dpa.SolveIsAllocation` | src/main/kotlin/com/github/fabianishere/fastauction/AuctionSolverDPA.kt:38-57 | With non-negative budgets and bids, a successful result is 0 or the revenue of an allocation. |
| `Dpa.DpaBelowExact` | src/test/kotlin/com/github/fabianishere/fastauction/AuctionSolverDPATest.kt:68 | A successful result never exceeds the optimal revenue, as the test asserts. |
| `Reader.Split` | src/main/kotlin/com/github/fabianishere/fastauction/AuctionInstanceReader.kt:50 | Splitting gives at least one token, and no token contains a space. |
| `Reader.JoinSplit` | src/main/kotlin/com/github/fabianishere/fastauction/AuctionInstanceReader.kt:50 | Joining the tokens with single spaces restores the line. |
| `Reader.SplitJoin` | src/main/kotlin/com/github/fabianishere/fastauction/AuctionInstanceReader.kt:64 | Splitting a join of space-free tokens gives the tokens back. |
| `Reader.DoubleSpace` | src/main/kotlin/com/github/fabianishere/fastauction/AuctionInstanceReader.kt:64 | Two adjacent spaces yield an empty token. |
| `Reader.Fill` | src/main/kotlin/com/github/fabianishere/fastauction/AuctionInstanceReader.kt:51-53 | The write-then-break loop fills slots `i ..` from the tokens and keeps the rest. It fails with a number error exactly when a token it reaches does not parse. If it reaches a token past a full row, it fails with an index error. |
| `Reader.ParseRow` | src/main/kotlin/com/github/fabianishere/fastauction/AuctionInstanceReader.kt:47-56 | A row of positive size is read exactly when its first `size` tokens parse, and then it holds those numbers with zeros after. A row of size 0 always fails. |
| `Reader.EmptyLineFails` | src/main/kotlin/com/github/fabianishere/fastauction/AuctionInstanceReader.kt:50-51 | An empty line fails with a number error. |
| `Reader.ParseBudgets` | src/main/kotlin/com/github/fabianishere/fastauction/AuctionInstanceReader.kt:46-57 | A negative count fails with the array-size error, and a missing line with the end-of-file error. Otherwise the budgets are read exactly when their tokens parse. |
| `Reader.BidRows` | src/main/kotlin/com/github/fabianishere/fastauction/AuctionInstanceReader.kt:62-70 | The bid rows are read exactly when there are enough lines and every row's tokens parse. Each row holds its line's numbers. |
| `Reader.ParseBids` | src/main/kotlin/com/github/fabianishere/fastauction/AuctionInstanceReader.kt:59-72 | Negative sizes fail with the array-size error. No bidders gives no rows. Otherwise the rows are as `BidRows` reads them. |
| `Reader.Read` | src/main/kotlin/com/github/fabianishere/fastauction/AuctionInstanceReader.kt:37-43 | With fewer than two lines `read` fails at the end of the file. A result it returns is a valid instance whose counts are the numbers on the first two lines, and the file has at least three lines. |
| `Reader.ReadSucceeds` | src/main/kotlin/com/github/fabianishere/fastauction/AuctionInstanceReader.kt:37-43 | `read` succeeds exactly on well-formed files, and the instance it returns is the one the file describes. |
| `Reader.ReadNeverInvalid` | src/main/kotlin/com/github/fabianishere/fastauction/AuctionInstanceReader.kt:41 | The instance's own checks never reject what the reader passes them. Each bad input fails earlier. |
| `Reader.NoBiddersFails` | src/main/kotlin/com/github/fabianishere/fastauction/AuctionInstanceReader.kt:47-51 | A file with zero bidders fails while reading the budgets. |
| `Reader.NoItemsFails` | src/main/kotlin/com/github/fabianishere/fastauction/AuctionInstanceReader.kt:60-65 | A file with zero items fails on the first bid row. |
| `Reader.RowRoundTrip` | src/main/kotlin/com/github/fabianishere/fastauction/AuctionInstanceReader.kt:64-67 | A row of `Int`s, written with a number format that `toInt` inverts on the `Int` range, splits back into its tokens and reads back as the same numbers. |
| `Reader.ReadFormat` | src/main/kotlin/com/github/fabianishere/fastauction/AuctionInstanceReader.kt:37-43 | Reading the file written for a valid instance whose numbers are all `Int`s gives back that instance. The number format only has to be inverted on the 32-bit `Int` range, which a parser returning only `Int`s can do (`Reader.UnaryInverse`). |
| `Reader.RowsDetermined` | src/main/kotlin/com/github/fabianishere/fastauction/AuctionInstanceReader.kt:37-43 | A file describes at most one instance. |

## Left out

- File and stream I/O: the reader works on the file's lines as a sequence. `readLine()` returning null is the end of that sequence.
- `String.toInt` is a parameter of the reader: any partial function from a token to an integer. The round trip assumes a number format it inverts on the 32-bit `Int` range, the only values `toInt` returns, and an instance whose numbers are all `Int`s.
- The C++ `read_instance` and the command-line driver in main.cpp. They are I/O around the solver.
- The SIMD solver and its test. It is not part of the modelled core.
- `hashCode`: it hashes through the platform's `Objects.hash`.
- The floating-point interval test `inInterval` and the interval length `max(budgets) * epsilon / bidders`. They are the parameter `same`, so every property of the DPA holds for every interval test.
- The `(1 - epsilon)` lower bound that AuctionSolverDPATest.kt asserts. It does not hold of the code as written: with at least two bidders and fewer bidders than items the solver returns 0, and with one bidder it throws. Only the upper bound is proved.
- Build and benchmark files.
- Exact.Revenue: bid sums are unbounded integers; 32-bit overflow of a sum is not modelled, and neither is it in any table entry.
- FastAuction.Revenue: bid sums are unbounded integers, as for `Exact.Revenue`.
- Exact.Solve: requires `items <= 30`. In Kotlin, `1 shl 31` is negative and the allocation throws. With more items the shift wraps.
- Exact.Solve: optimality is stated for non-negative budgets only. A negative budget makes even the empty item set pay a negative amount, while the tables start every round from 0 for it.
- FastAuction.SolveRevenue: optimality is stated for non-negative budgets only, for the same reason. It also requires `items <= 30`: the tables have `1 << items` entries (fastauction.cpp:146-148), and this keeps every mask below the sign bit. 32-bit overflow of `1 << items` for larger `items` is not modelled.
- Dpa.Child: the `Int` arithmetic `vi + bij` and `sp[n] += vip - vi` is unbounded. Kotlin's 32-bit wrap-around of a bidder's slot or of the total is not modelled.
- FastAuction.SolveRevenueAsWritten: requires `bidders <= 2^items` and in-range bid rows. Past those limits the C++ code reads outside its vectors, which is undefined behaviour.
- Dpa.Expand: states the size of the expanded list and the invariants it keeps. It does not state the position of each child as one formula over the whole list. The position is stated per parent tuple, through `Dpa.ChildrenAt`.
- Dpa.Solve: states only that a result is not negative. What the result is comes from `Dpa.SolveSucceeds`, `Dpa.SolveFails`, `Dpa.SolveIsAllocation` and `Dpa.DpaBelowExact`.
- Exact.Generate, Exact.Merge, Exact.FirstTable, Exact.Round, Exact.Rounds and their `FastAuction` counterparts: these methods update arrays in place, so their contracts mention the arrays' previous contents or freshness. The same facts are stated on sequences by `Splits.KotlinRound`, `Splits.CppRound` and `Splits.FirstTableIsBest`.

## Findings

| source | as written | input that shows it | evidently intended | confidence | as-written member | corrected member |
|---|---|---|---|---|---|---|
| fastauction.cpp:150-160 | `bidders` is used as the table bound for `generate` and `merge`, and as the index of the answer `S[bidders - 1]`. It is also the stride between bid rows, which `read_instance` shares (fastauction.cpp:26). | 1 bidder, 2 items, budget 5, bids 1 and 2: the result is 0, but the optimal revenue is 3. The stride plays no part here. | Table bound `2^items` and answer `S[2^items - 1]`. Stride `items` is intended only if `read_instance` is changed with it; that rests on the vector size `bidders * items` alone. | not executed | `FastAuction.AsWrittenMissesRevenue` | `FastAuction.SolveRevenue` |
